/**
 * A pass entry in memory (`PassKey`): the title and group chain derived from
 * its key path, and the fields parsed from its decrypted text.
 *
 * A key path is the entry's file path relative to the store, without the
 * `.gpg` extension and with its leading `/`, as in `/web/mail/alice`.
 * The decrypted text holds the password on its first line, then optional
 * `name: value` lines.
 */
module PassKeys {
  import opened Results
  import opened PyStrings

  /** Python's IndexError, raised by `list.pop` on an empty list and by
      indexing a list past its end. */
  datatype Error = PopFromEmptyList | IndexOutOfRange

  /** Lines that parsing drops outright (`PassKey.to_skip`). */
  const TO_SKIP: seq<string> := ["---", ""]

  /** Field names that go to a dedicated field; every other name is a custom property. */
  const RESERVED: set<string> := {"url", "user", "notes"}

  // ---------------------------------------------------------------------------
  // Key paths

  /** `get_title`: the last `/`-separated segment of the key, that is the longest
      suffix of the key without `/`. */
  function GetTitle(key: string): (title: string)
    ensures '/' !in title
    ensures |title| <= |key| && key[|key| - |title|..] == title
    ensures |title| < |key| ==> key[|key| - |title| - 1] == '/'
  {
    var parts := Split(key, '/');
    JoinEndsWithLast(parts, '/');
    parts[|parts| - 1]
  }

  /** `get_groups`: the `/`-separated segments without the first (the empty text
      before the leading `/`) and the last (the title). With no `/` in the key
      the list is empty once the title is popped, and popping the first segment
      raises. */
  function GetGroups(key: string): (r: Result<seq<string>, Error>)
    ensures r.Failure? <==> '/' !in key
    ensures r.Success? ==> forall i :: 0 <= i < |r.value| ==> '/' !in r.value[i]
    ensures r.Success? ==> r.value + [GetTitle(key)] == Split(key, '/')[1..]
  {
    var segments := Split(key, '/');
    var withoutTitle := segments[..|segments| - 1];
    if |withoutTitle| == 0 then Failure(PopFromEmptyList)
    else
      assert segments[1..] == withoutTitle[1..] + [segments[|segments| - 1]];
      Success(withoutTitle[1..])
  }

  /** A key path is its first segment, a `/`, then its groups and its title joined by `/`. */
  lemma KeyPathParts(key: string)
    requires GetGroups(key).Success?
    ensures key == Split(key, '/')[0] + "/" + Join(GetGroups(key).value + [GetTitle(key)], '/')
  {
    var parts := Split(key, '/');
    assert |parts| > 1;
    assert parts[1..] == GetGroups(key).value + [GetTitle(key)];
  }

  /** The segments of a path with a leading `/` are the empty text, then the
      pieces joined after the `/`. */
  lemma SplitLeadingSep(tail: seq<string>)
    requires |tail| >= 1
    requires forall i :: 0 <= i < |tail| ==> '/' !in tail[i]
    ensures Split("/" + Join(tail, '/'), '/') == [""] + tail
  {
    SplitJoin(tail, '/');
    SplitAfterFirst("", '/', Join(tail, '/'));
    assert "" + ['/'] + Join(tail, '/') == "/" + Join(tail, '/');
  }

  /** Building a key path from groups and a title, with its leading `/`, and
      reading it back gives the same groups and title. */
  lemma KeyPathRoundTrip(groups: seq<string>, title: string)
    requires forall i :: 0 <= i < |groups| ==> '/' !in groups[i]
    requires '/' !in title
    ensures GetGroups("/" + Join(groups + [title], '/')) == Success(groups)
    ensures GetTitle("/" + Join(groups + [title], '/')) == title
  {
    SlashFreeAppend(groups, title);
    SplitLeadingSep(groups + [title]);
    PathOfSegments("/" + Join(groups + [title], '/'), groups, title);
  }

  lemma SlashFreeAppend(groups: seq<string>, title: string)
    requires forall i :: 0 <= i < |groups| ==> '/' !in groups[i]
    requires '/' !in title
    ensures forall i :: 0 <= i < |groups + [title]| ==> '/' !in (groups + [title])[i]
  {
    forall i | 0 <= i < |groups + [title]| ensures '/' !in (groups + [title])[i] {
      if i < |groups| { assert (groups + [title])[i] == groups[i]; }
    }
  }

  /** A key whose segments are the empty text, then groups, then a title, has those groups and that title. */
  lemma PathOfSegments(key: string, groups: seq<string>, title: string)
    requires Split(key, '/') == [""] + (groups + [title])
    ensures GetGroups(key) == Success(groups) && GetTitle(key) == title
  {
    var parts := [""] + (groups + [title]);
    assert parts[..|parts| - 1] == [""] + groups;
    assert ([""] + groups)[1..] == groups;
  }

  // ---------------------------------------------------------------------------
  // Lines of the decrypted text

  /** `is_valid_line`: the line has a `:` and its first `:` is not at index 0. */
  function IsValidLine(line: string): (valid: bool)
    ensures valid <==> ':' in line && line[0] != ':'
  {
    Find(line, ':') > 0
  }

  /** The filter `x not in to_skip and is_valid_line(x)`; the skip list is
      redundant, since neither of its lines has a colon. */
  function IsKept(line: string): (kept: bool)
    ensures kept <==> IsValidLine(line)
  {
    line !in TO_SKIP && IsValidLine(line)
  }

  /** `parse_key_line`: split once at the first colon and strip both halves.
      A line without a colon has no second half, and indexing it raises. */
  function ParseKeyLine(line: string): (r: Result<(string, string), Error>)
    ensures r.Success? <==> ':' in line
    ensures r.Success? ==> ':' !in r.value.0
    ensures r.Success? ==> IsStripped(r.value.0) && IsStripped(r.value.1)
  {
    var data := SplitOnce(line, ':');
    if |data| < 2 then Failure(IndexOutOfRange)
    else
      StripIsSlice(data[0]);
      Success((Strip(data[0]), Strip(data[1])))
  }

  /** The name is everything before the first colon and the value everything
      after it, further colons included, both stripped. */
  lemma ParseKeyLineAtFirstColon(name: string, value: string)
    requires ':' !in name
    ensures ParseKeyLine(name + ":" + value) == Success((Strip(name), Strip(value)))
  {
    FindAfterPrefix(name, ':', value);
    var line := name + ":" + value;
    assert line[..|name|] == name;
    assert line[|name| + 1..] == value;
  }

  /** A `name: value` line as pass writes it parses back to its name and value. */
  lemma PassLineRoundTrip(name: string, value: string)
    requires ':' !in name && name != []
    requires IsStripped(name) && IsStripped(value)
    ensures IsValidLine(name + ": " + value)
    ensures ParseKeyLine(name + ": " + value) == Success((name, value))
  {
    var line, padded := name + ": " + value, [' '] + value;
    assert line == name + [':'] + padded;
    assert Strip(name) == name by {
      StripPadded([], name, []);
      assert [] + name + [] == name;
    }
    assert Strip(padded) == value by {
      StripPadded([' '], value, []);
      assert [' '] + value + [] == padded;
    }
    assert ParseKeyLine(line) == Success((Strip(name), Strip(padded))) by {
      ParseKeyLineAtFirstColon(name, padded);
    }
    assert IsValidLine(line) by {
      assert line[0] == name[0] && line[|name|] == ':';
    }
  }

  /** The lines that survive the filter, in order. */
  function KeptLines(lines: seq<string>): (kept: seq<string>)
    ensures |kept| <= |lines|
    ensures forall i :: 0 <= i < |kept| ==> IsValidLine(kept[i]) && kept[i] in lines
    ensures forall line :: line in lines && IsValidLine(line) ==> line in kept
  {
    if lines == [] then []
    else (if IsKept(lines[0]) then [lines[0]] else []) + KeptLines(lines[1..])
  }

  /** The filter works line by line: it keeps the lines of `a + b` in their
      order, once per occurrence. */
  lemma {:induction false} KeptLinesAppend(a: seq<string>, b: seq<string>)
    ensures KeptLines(a + b) == KeptLines(a) + KeptLines(b)
    decreases |a|
  {
    if a == [] {
      assert a + b == b;
    } else {
      assert (a + b)[0] == a[0];
      assert (a + b)[1..] == a[1..] + b;
      KeptLinesAppend(a[1..], b);
    }
  }

  /** The name and value of each kept line. */
  function ParsePairs(lines: seq<string>): (pairs: seq<(string, string)>)
    requires forall i :: 0 <= i < |lines| ==> IsValidLine(lines[i])
    ensures |pairs| == |lines|
    ensures forall i :: 0 <= i < |lines| ==> ParseKeyLine(lines[i]) == Success(pairs[i])
  {
    if lines == [] then []
    else
      assert IsValidLine(lines[0]);
      [ParseKeyLine(lines[0]).value] + ParsePairs(lines[1..])
  }

  function LinePairs(lines: seq<string>): seq<(string, string)>
  {
    ParsePairs(KeptLines(lines))
  }

  /** A later line wins: after a valid last line, its name holds its value,
      as a dedicated field and, when not reserved, as a custom property. */
  lemma LastLineWins(lines: seq<string>, line: string)
    requires IsValidLine(line)
    ensures var (name, value) := ParseKeyLine(line).value;
      LastValue(LinePairs(lines + [line]), name, "") == value &&
      (name !in RESERVED ==>
        name in CustomFields(LinePairs(lines + [line])) &&
        CustomFields(LinePairs(lines + [line]))[name] == value)
  {
    var kept := KeptLines(lines);
    KeptLinesAppend(lines, [line]);
    assert KeptLines([line]) == [line] by {
      assert [line][1..] == [];
    }
    var pairs := ParsePairs(kept + [line]);
    assert pairs[|pairs| - 1] == ParseKeyLine(line).value by {
      assert (kept + [line])[|kept|] == line;
    }
  }

  /** The line that becomes the password: the text before the first line feed,
      or all of it when there is none. */
  function FirstLine(keyString: string): (line: string)
    ensures '\n' !in line
    ensures |line| <= |keyString| && keyString[..|line|] == line
    ensures |line| < |keyString| ==> keyString[|line|] == '\n'
  {
    Split(keyString, '\n')[0]
  }

  /** The field lines of an entry's text: every line but the first, filtered and parsed. */
  function EntryPairs(keyString: string): (pairs: seq<(string, string)>)
    ensures '\n' !in keyString ==> pairs == []
  {
    LinePairs(Split(keyString, '\n')[1..])
  }

  /** The first line is the password whatever it holds, and never a field. */
  lemma FirstLineIsNotAField(first: string, rest: string)
    requires '\n' !in first
    ensures FirstLine(first + "\n" + rest) == first
    ensures EntryPairs(first + "\n" + rest) == LinePairs(Split(rest, '\n'))
  {
    SplitAfterFirst(first, '\n', rest);
    assert ([first] + Split(rest, '\n'))[1..] == Split(rest, '\n');
  }

  // ---------------------------------------------------------------------------
  // Fields

  /** The value of the last pair called `name`, or `default` when there is none. */
  function LastValue(pairs: seq<(string, string)>, name: string, default: string): string
  {
    if pairs == [] then default
    else if pairs[|pairs| - 1].0 == name then pairs[|pairs| - 1].1
    else LastValue(pairs[..|pairs| - 1], name, default)
  }

  lemma {:induction false} LastValueAbsent(pairs: seq<(string, string)>, name: string, default: string)
    requires forall i :: 0 <= i < |pairs| ==> pairs[i].0 != name
    ensures LastValue(pairs, name, default) == default
  {
    if pairs != [] {
      LastValueAbsent(pairs[..|pairs| - 1], name, default);
    }
  }

  /** A later value wins: the pair at `i` decides when no later pair has its name. */
  lemma {:induction false} LastValueIsLast(pairs: seq<(string, string)>, i: nat, default: string)
    requires i < |pairs|
    requires forall j :: i < j < |pairs| ==> pairs[j].0 != pairs[i].0
    ensures LastValue(pairs, pairs[i].0, default) == pairs[i].1
    decreases |pairs|
  {
    if i < |pairs| - 1 {
      var prefix := pairs[..|pairs| - 1];
      assert prefix[i] == pairs[i];
      LastValueIsLast(prefix, i, default);
    }
  }

  /** The names every pair carries. */
  function Names(pairs: seq<(string, string)>): set<string>
  {
    set i | 0 <= i < |pairs| :: pairs[i].0
  }

  /** The dictionary `custom_properties.update` builds from the pairs whose names
      are not reserved. */
  function CustomFields(pairs: seq<(string, string)>): map<string, string>
  {
    if pairs == [] then map[]
    else
      var (name, value) := pairs[|pairs| - 1];
      var fields := CustomFields(pairs[..|pairs| - 1]);
      if name in RESERVED then fields else fields[name := value]
  }

  /** The custom properties are named by exactly the names that are not reserved;
      in particular none of them is `url`, `user` or `notes`. */
  lemma {:induction false} CustomFieldsNames(pairs: seq<(string, string)>)
    ensures CustomFields(pairs).Keys == Names(pairs) - RESERVED
  {
    if pairs != [] {
      var prefix := pairs[..|pairs| - 1];
      CustomFieldsNames(prefix);
      assert Names(pairs) == Names(prefix) + {pairs[|pairs| - 1].0} by {
        forall n | n in Names(pairs) ensures n in Names(prefix) + {pairs[|pairs| - 1].0} {
          var i :| 0 <= i < |pairs| && pairs[i].0 == n;
          if i < |pairs| - 1 { assert prefix[i] == pairs[i]; }
        }
        forall n | n in Names(prefix) ensures n in Names(pairs) {
          var i :| 0 <= i < |prefix| && prefix[i].0 == n;
          assert pairs[i] == prefix[i];
        }
      }
    }
  }

  /** Each custom property holds the last value given for its name. */
  lemma {:induction false} CustomFieldsLastValue(pairs: seq<(string, string)>, name: string)
    requires name in CustomFields(pairs)
    ensures CustomFields(pairs)[name] == LastValue(pairs, name, "")
  {
    CustomFieldsNames(pairs);
    if pairs != [] && pairs[|pairs| - 1].0 != name {
      CustomFieldsLastValue(pairs[..|pairs| - 1], name);
    }
  }

  // ---------------------------------------------------------------------------
  // The entry

  /** A pass entry, filled in by its constructor and `ParseKeyString`. */
  class PassKey {
    var groups: seq<string>
    var title: string
    var password: string
    var url: string
    var user: string
    var notes: string
    var customProperties: map<string, string>

    /** The defaults `__init__` sets before parsing. */
    constructor (groups: seq<string>, title: string)
      ensures this.groups == groups && this.title == title
      ensures password == "" && url == "" && user == "" && notes == ""
      ensures customProperties == map[]
    {
      this.groups := groups;
      this.title := title;
      password := "";
      url := "";
      user := "";
      notes := "";
      customProperties := map[];
    }

    /** `parse_key_string`: the first line becomes the password, and the kept
        field lines are applied in order. */
    method ParseKeyString(keyString: string)
      modifies this
      ensures groups == old(groups) && title == old(title)
      ensures password == FirstLine(keyString)
      ensures url == LastValue(EntryPairs(keyString), "url", old(url))
      ensures user == LastValue(EntryPairs(keyString), "user", old(user))
      ensures notes == LastValue(EntryPairs(keyString), "notes", old(notes))
      ensures customProperties == old(customProperties) + CustomFields(EntryPairs(keyString))
    {
      var lines := Split(keyString, '\n');
      password := lines[0];
      var data := LinePairs(lines[1..]);
      SetFields(data);
    }

    /** The loop of `parse_key_string`: each pair in turn sets `url`, `user` or
        `notes`, or updates the custom properties, so that a later value wins. */
    method SetFields(data: seq<(string, string)>)
      modifies this
      ensures groups == old(groups) && title == old(title) && password == old(password)
      ensures url == LastValue(data, "url", old(url))
      ensures user == LastValue(data, "user", old(user))
      ensures notes == LastValue(data, "notes", old(notes))
      ensures customProperties == old(customProperties) + CustomFields(data)
    {
      for i := 0 to |data|
        invariant groups == old(groups) && title == old(title) && password == old(password)
        invariant url == LastValue(data[..i], "url", old(url))
        invariant user == LastValue(data[..i], "user", old(user))
        invariant notes == LastValue(data[..i], "notes", old(notes))
        invariant customProperties == old(customProperties) + CustomFields(data[..i])
      {
        var (key, value) := data[i];
        assert data[..i + 1][..i] == data[..i];
        if key == "url" {
          url := value;
        } else if key == "user" {
          user := value;
        } else if key == "notes" {
          notes := value;
        } else {
          customProperties := customProperties[key := value];
        }
      }
      assert data[..|data|] == data;
    }
  }

  /** `PassKey(reader, key)`, with the text `pass show` would print for the key
      given as `keyString`: a key without `/` raises in `get_groups`. */
  method NewPassKey(key: string, keyString: string) returns (r: Result<PassKey, Error>)
    ensures r.Failure? <==> '/' !in key
    ensures r.Success? ==> fresh(r.value)
    ensures r.Success? ==> Success(r.value.groups) == GetGroups(key) && r.value.title == GetTitle(key)
    ensures r.Success? ==> r.value.password == FirstLine(keyString)
    ensures r.Success? ==> r.value.url == LastValue(EntryPairs(keyString), "url", "")
    ensures r.Success? ==> r.value.user == LastValue(EntryPairs(keyString), "user", "")
    ensures r.Success? ==> r.value.notes == LastValue(EntryPairs(keyString), "notes", "")
    ensures r.Success? ==> r.value.customProperties == CustomFields(EntryPairs(keyString))
    ensures r.Success? ==> r.value.customProperties.Keys !! RESERVED
  {
    var groups := GetGroups(key);
    if groups.Failure? {
      return Failure(groups.error);
    }
    var passKey := new PassKey(groups.value, GetTitle(key));
    passKey.ParseKeyString(keyString);
    ghost var pairs := EntryPairs(keyString);
    assert passKey.customProperties == CustomFields(pairs) by {
      assert map[] + CustomFields(pairs) == CustomFields(pairs);
    }
    assert passKey.customProperties.Keys !! RESERVED by {
      CustomFieldsNames(pairs);
    }
    return Success(passKey);
  }
}
