# pass2keepass2 in Dafny

pass2keepass2 is a one-shot tool that copies a `pass` password store into a KeePass2 database. It owns three pieces of logic, and this project models each one and proves what it promises:

1. **Key paths.** A pass entry is named by its file path relative to the store, with its leading `/` and without `.gpg`, as in `/web/mail/alice`. `PassKey.get_title` takes the last `/`-segment as the entry title. `PassKey.get_groups` takes the segments between the first and the last as the chain of group names.
2. **Entry text.** The decrypted text of an entry holds the password on its first line. Each later line whose first `:` is past index 0 is a `name: value` field. `url`, `user` and `notes` fill dedicated fields, and every other name becomes a custom property, with later lines winning.
3. **Conversion.** `P2KP2.add_key` walks from the root group through the entry's group names. Among the current group's direct children it finds the one with the next name, or creates it. It then adds an entry in the group it reached and copies the entry's fields into it.

Modules:

- `Results` (results.dfy): `Option` and `Result`. A `Failure` stands for a Python exception.
- `PyStrings` (py_strings.dfy): the Python string operations the code uses, which are `str.find`, `str.split(sep)`, `str.split(sep, 1)` and `str.strip()`. It also has `Join`, which `split` inverts.
- `PassKeys` (pass_keys.dfy): `get_title`, `get_groups`, `is_valid_line`, `parse_key_line` and the parsing of an entry's text. The `PassKey` class holds the fields that `__init__` and `parse_key_string` assign.
- `KeePass` (keepass.dfy): an abstract KeePass database. Its groups form a sequence in creation order, each group names its parent's index, and the root is at index 0. `FindChild` is the non-recursive first-match group search. `Walk` is the find-or-create walk stated as a function. The `Database` and `Entry` classes model the calls `add_key` makes.
- `Converter` (p2kp2.dfy): the `P2KP2` class and its `AddKey` method, with the walk written as the source's loop.

Two details of the code may surprise a reader:

- Lines are not trimmed before they are filtered. So a line starting with `:` is dropped, while ` :x` is kept and gives the custom property `""` with value `x`.
- The `---` and empty-line skip list never matters, because `is_valid_line` already rejects both lines (`PassKeys.IsKept`).

## Model

| member | source | states |
|---|---|---|
| PyStrings.Find | pass2keepass2.py:99 | `find` of one character gives -1 exactly when the character is absent; otherwise it gives an index that holds the character, with no earlier occurrence |
| PyStrings.Split | pass2keepass2.py:86 | `split(sep)` gives at least one piece, no piece contains the separator, and joining the pieces with the separator gives back the input |
| PyStrings.SplitJoin | pass2keepass2.py:86 | splitting inverts joining: separator-free pieces joined by the separator split back to the same pieces |
| PyStrings.SplitOnce | pass2keepass2.py:104 | `split(sep, 1)` gives one piece (the whole text) exactly when the separator is absent; otherwise two pieces, where the first holds no separator and first + separator + second is the input |
| PyStrings.Strip | pass2keepass2.py:105 | `strip()` gives a text no longer than the input that neither starts nor ends with whitespace |
| PyStrings.StripRemovesSpaces | pass2keepass2.py:105 | the result of `strip()` is the slice of the input that starts where the leading whitespace ends, and only whitespace lies before and after it |
| PyStrings.StripPadded | pass2keepass2.py:105 | stripping has exactly one answer: a text with no whitespace at its ends, padded with whitespace on both sides, strips back to itself |
| PyStrings.StripIdempotent | pass2keepass2.py:105 | stripping twice is the same as stripping once |
| PassKeys.GetTitle | pass2keepass2.py:79-81 | the title has no `/`, is a suffix of the key, and is preceded by `/` whenever it is shorter than the key, so it is exactly the last segment |
| PassKeys.GetGroups | pass2keepass2.py:84-89 | fails (IndexError of the second pop) exactly when the key has no `/`; otherwise the groups hold no `/` and groups + [title] equals the split segments without the first |
| PassKeys.KeyPathParts | pass2keepass2.py:84-89 | a key with groups is its first segment, `/`, then its groups and title joined by `/` |
| PassKeys.KeyPathRoundTrip | pass2keepass2.py:79-89 | for any `/`-free groups and title, the key `"/" + join(groups + [title])` reads back as exactly those groups and that title |
| PassKeys.IsValidLine | pass2keepass2.py:97-99 | a line is valid exactly when it contains `:` and does not start with `:`; later colons do not rescue a leading one |
| PassKeys.IsKept | pass2keepass2.py:112 | the filter keeps a line exactly when it is valid; the `to_skip` test is subsumed |
| PassKeys.ParseKeyLine | pass2keepass2.py:102-105 | fails (IndexError) exactly when the line has no colon; otherwise the name holds no colon, and name and value have no whitespace at either end |
| PassKeys.ParseKeyLineAtFirstColon | pass2keepass2.py:102-105 | for a colon-free name, `name + ":" + value` parses to the stripped name and the stripped value, even when the value has further colons |
| PassKeys.PassLineRoundTrip | pass2keepass2.py:97-105 | a line `name: value` with a non-empty colon-free name and both parts already stripped is valid and parses back to (name, value) |
| PassKeys.KeptLines | pass2keepass2.py:112 | every kept line is valid and comes from the input, and every valid input line is kept |
| PassKeys.KeptLinesAppend | pass2keepass2.py:112 | the filter works line by line: the kept lines of `a + b` are those of `a` followed by those of `b`, so input order and repeated lines are kept |
| PassKeys.ParsePairs | pass2keepass2.py:113 | every kept line parses without error, and gives the pair at its own position |
| PassKeys.FirstLine | pass2keepass2.py:109-110 | the password line has no line feed, is a prefix of the text, and is followed by a line feed unless it is the whole text |
| PassKeys.EntryPairs | pass2keepass2.py:109-113 | a text without a line feed has no fields |
| PassKeys.FirstLineIsNotAField | pass2keepass2.py:109-113 | for `first + "\n" + rest`, the password is `first` whatever it holds, and the fields come from the lines of `rest` alone |
| PassKeys.LastValueAbsent | pass2keepass2.py:114-120 | when no pair has a name, the field keeps its default |
| PassKeys.LastValueIsLast | pass2keepass2.py:114-120 | when no later pair has the same name, a pair's value is the final value of that field, so a later value wins |
| PassKeys.CustomFieldsNames | pass2keepass2.py:114-122 | the custom properties are named by exactly the parsed names other than `url`, `user` and `notes` |
| PassKeys.LastLineWins | pass2keepass2.py:112-122 | after any lines, a valid last line decides its field: its name gets its value, as url, user or notes and, for any other name, as a custom property |
| PassKeys.CustomFieldsLastValue | pass2keepass2.py:114-122 | each custom property holds the last value given for its name |
| PassKeys.PassKey.constructor | pass2keepass2.py:69-74 | a new entry has the given groups and title, empty url, user and notes, and no custom properties |
| PassKeys.PassKey.ParseKeyString | pass2keepass2.py:107-122 | the password becomes the first line; url, user and notes become the last value given for them, or keep their old value; the custom properties are the old ones updated with the custom fields; groups and title are unchanged |
| PassKeys.PassKey.SetFields | pass2keepass2.py:114-122 | applying the pairs in order leaves each dedicated field at its last value and adds the custom fields, and leaves groups, title and password unchanged |
| PassKeys.NewPassKey | pass2keepass2.py:63-76 | construction fails exactly when the key has no `/`; otherwise the entry holds the key's groups and title, the first line as password, the last url, user and notes (default ""), and custom properties that never use a reserved name |
| KeePass.FindChild | pass2keepass2.py:159 | gives the lowest-indexed direct child of the group with that name, or none exactly when no direct child has it |
| KeePass.FindChildExtend | pass2keepass2.py:159 | creating groups never changes which existing child a search finds |
| KeePass.FindChildAppended | pass2keepass2.py:159-162 | a group just created under a parent that lacked that name is the one a later search finds |
| KeePass.Walk | pass2keepass2.py:155-163 | the walk keeps a tree, only appends groups (existing groups are unchanged), and ends at a group of the result |
| KeePass.ResolveExtend | pass2keepass2.py:155-163 | a path of existing groups resolves to the same group after more groups are created |
| KeePass.WalkResolves | pass2keepass2.py:155-163 | after the walk, following the names from the start through direct children reaches the group the walk returned |
| KeePass.WalkExisting | pass2keepass2.py:155-163 | when the whole path already exists, the walk creates nothing and returns the group the path leads to |
| KeePass.WalkTwice | pass2keepass2.py:155-163 | walking the same path again adds no groups and reaches the same group |
| KeePass.WalkBelowLeaf | pass2keepass2.py:160-162 | below a group that has no children, every name of the path becomes a new group |
| KeePass.WalkCreatesMissing | pass2keepass2.py:155-163 | the walk creates exactly one group per name after the longest prefix of the path that already exists |
| KeePass.Database.constructor | pass2keepass2.py:140-146 | the fresh database holds only its root group and no entries |
| KeePass.Database.AddGroup | pass2keepass2.py:162 | appends one group with the given name and parent, returns its index, keeps the tree valid and leaves the entries alone |
| KeePass.Database.AddEntry | pass2keepass2.py:165 | appends a new entry with the given group, title, user name and password, and empty url, notes and custom properties, and leaves the groups alone |
| KeePass.Entry.SetCustomProperty | pass2keepass2.py:171 | sets one custom property and changes no other field |
| Converter.P2KP2.CopyCustomProperties | pass2keepass2.py:169-171 | after one `set_custom_property` call per custom property, the entry's custom properties are the old ones updated with the key's, and no other field of the entry changes |
| Converter.P2KP2.AddKey | pass2keepass2.py:148-172 | the groups afterwards and the entry's group are those of the walk from the root through the key's groups, and following those names from the root now reaches the entry's group; exactly one fresh entry is added, with the key's title, user, password, url, notes and custom properties |

## Left out

- p2kp2/pass2keepass2.py is not part of this model. It is the command-line front end: argument parsing, prompts, signal handling, progress printing and exit codes.
- `PassKey.decrypt_key` runs the `pass` command and decodes its UTF-8 output. That is I/O. `NewPassKey` takes the decoded text as its parameter `keyString`.
- `PassReader` is not modelled: its constructor, `get_keys`, `parse_key` and `parse_db`. They walk the file system and call `decrypt_key`. Key paths are taken as given strings.
- `P2KP2.__init__` is not modelled beyond its result. It checks that the file exists, raises `DbAlreadyExistsException`, copies `empty.kdbx`, opens the file, sets the password and saves. All of that is file I/O and the KeePass library. `Database.constructor` gives the empty database it produces, and the `P2KP2` constructor takes an open database.
- The KeePass library itself is abstract. The model has no file format, encryption, UUIDs or timestamps. A group is an index into a list, not an object. Group search only finds the first direct child with exactly that name.
- PyStrings.Strip: removes only ASCII whitespace (tab through carriage return, the four information separators, and space). Python's `str.strip()` also removes non-ASCII Unicode whitespace.
- PassKeys.PassKey.constructor: sets `password` to "". The Python constructor leaves the attribute unset until `parse_key_string` assigns it, which always happens.
- Converter.P2KP2.AddKey: copies the custom properties in an unspecified key order rather than in dictionary order. The resulting map is the same either way.
