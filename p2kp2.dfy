/**
 * The converter (`P2KP2`): copies one pass entry into the KeePass database,
 * creating the groups of its path on the way.
 */
module Converter {
  import opened Results
  import opened PassKeys
  import opened KeePass

  class P2KP2 {
    var db: Database

    /** The converter over a database that is already open. */
    constructor (db: Database)
      ensures this.db == db
    {
      this.db := db;
    }

    /** `add_key`: walk from the root group through the key's groups, creating
        each one that is missing, then add an entry in the group reached with
        the key's title, user, password, url, notes and custom properties. */
    method AddKey(key: PassKey) returns (entry: Entry)
      requires db.Valid()
      modifies db
      ensures db.Valid()
      ensures (db.groups, entry.group) == Walk(old(db.groups), ROOT, key.groups)
      ensures Resolve(db.groups, ROOT, key.groups) == Some(entry.group)
      ensures fresh(entry) && db.entries == old(db.entries) + [entry]
      ensures entry.title == key.title && entry.username == key.user && entry.password == key.password
      ensures entry.url == key.url && entry.notes == key.notes
      ensures entry.customProperties == key.customProperties
    {
      var keyGroup: nat := ROOT;
      if |key.groups| > 0 {
        for i := 0 to |key.groups|
          invariant db.Valid() && keyGroup < |db.groups|
          invariant Walk(db.groups, keyGroup, key.groups[i..]) == Walk(old(db.groups), ROOT, key.groups)
          invariant db.entries == old(db.entries)
        {
          var groupName := key.groups[i];
          assert key.groups[i..][1..] == key.groups[i + 1..];
          var group := FindChild(db.groups, keyGroup, groupName);
          if group.None? {
            var created := db.AddGroup(keyGroup, groupName);
            group := Some(created);
          }
          keyGroup := group.value;
        }
      }
      assert key.groups[|key.groups|..] == [];
      WalkResolves(old(db.groups), ROOT, key.groups);

      entry := db.AddEntry(keyGroup, key.title, key.user, key.password);
      entry.url := key.url;
      entry.notes := key.notes;
      CopyCustomProperties(entry, key.customProperties);
    }

    /** The last loop of `add_key`: one `set_custom_property` call per custom
        property of the key, in no particular order. */
    static method CopyCustomProperties(entry: Entry, properties: map<string, string>)
      modifies entry
      ensures entry.customProperties == old(entry.customProperties) + properties
      ensures entry.group == old(entry.group) && entry.title == old(entry.title)
      ensures entry.username == old(entry.username) && entry.password == old(entry.password)
      ensures entry.url == old(entry.url) && entry.notes == old(entry.notes)
    {
      var remaining := properties.Keys;
      while remaining != {}
        invariant remaining <= properties.Keys
        invariant entry.customProperties ==
          old(entry.customProperties) + map name | name in properties.Keys - remaining :: properties[name]
        invariant entry.group == old(entry.group) && entry.title == old(entry.title)
        invariant entry.username == old(entry.username) && entry.password == old(entry.password)
        invariant entry.url == old(entry.url) && entry.notes == old(entry.notes)
        decreases remaining
      {
        var name :| name in remaining;
        entry.SetCustomProperty(name, properties[name]);
        remaining := remaining - {name};
      }
    }
  }
}
