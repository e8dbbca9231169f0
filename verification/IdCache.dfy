/** The ID cache: entries filed by ID, by name and by context, updated in place and moved between
    caches. Hash tables are multimaps: a row remembers what its key was when it was filed, because that
    decides the bucket it is looked for in. */
module IdCache {
  import opened Basics

  type Name = string
  type Context = nat

  /** A client ID is compared by its nickname hash alone, or as a whole. */
  datatype IdValue = IdValue(hash: nat, rest: nat)

  datatype IdType = Client | Server | Channel

  /** The bucket an ID is looked for in. For clients it depends on the hash alone. */
  type Bucket = IdValue -> nat

  ghost predicate BucketOk(idType: IdType, bucket: Bucket) {
    idType.Client? ==> forall a: IdValue, b: IdValue :: a.hash == b.hash ==> bucket(a) == bucket(b)
  }

  /** An ID in memory, which its owner may overwrite. */
  class Id {
    var value: IdValue
    constructor (value: IdValue)
      ensures this.value == value
    {
      this.value := value;
    }
  }

  class Entry {
    var id: Id?
    var name: Option<Name>
    var context: Option<Context>

    constructor (id: Id?, name: Option<Name>, context: Option<Context>)
      ensures this.id == id && this.name == name && this.context == context
    {
      this.id, this.name, this.context := id, name, context;
    }
  }

  datatype IdRow = IdRow(filed: IdValue, key: Id, entry: Entry)
  datatype Row<K> = Row(key: K, entry: Entry)

  // ---- What is to be filed ------------------------------------------------------------------------------

  ghost function IdsOf(es: set<Entry>): set<Id>
    reads es
  {
    set e | e in es && e.id != null :: e.id
  }

  /** The rows of the ID table for these entries, under their current IDs. */
  ghost function IdRows(es: set<Entry>): set<IdRow>
    reads es, IdsOf(es)
  {
    set e | e in es && e.id != null :: IdRow(e.id.value, e.id, e)
  }

  ghost function NameRows(es: set<Entry>): set<Row<Name>>
    reads es
  {
    set e | e in es && e.name.Some? :: Row(e.name.value, e)
  }

  ghost function ContextRows(es: set<Entry>): set<Row<Context>>
    reads es
  {
    set e | e in es && e.context.Some? :: Row(e.context.value, e)
  }

  /** Every entry has something to be found by, and no two share an ID in memory. */
  ghost predicate Findable(es: set<Entry>)
    reads es
  {
    && (forall e <- es :: e.id != null || e.name.Some? || e.context.Some?)
    && (forall e <- es, f <- es :: e != f && e.id != null ==> e.id != f.id)
  }

  /** No two entries have the same full ID. */
  ghost predicate Unique(es: set<Entry>)
    reads es, IdsOf(es)
  {
    forall e <- es, f <- es :: e != f && e.id != null && f.id != null ==> e.id.value != f.id.value
  }

  lemma {:induction false} OneMoreId(es: set<Entry>, c: Entry)
    requires c !in es
    ensures IdsOf(es + {c}) == IdsOf(es) + (if c.id != null then {c.id} else {})
    ensures IdRows(es + {c}) == IdRows(es) + (if c.id != null then {IdRow(c.id.value, c.id, c)} else {})
    ensures forall r <- IdRows(es) :: r.entry != c
  {
    if c.id != null { assert c in es + {c}; }
  }

  lemma {:induction false} OneMoreName(es: set<Entry>, c: Entry)
    requires c !in es
    ensures NameRows(es + {c}) == NameRows(es) + (if c.name.Some? then {Row(c.name.value, c)} else {})
    ensures forall r <- NameRows(es) :: r.entry != c
  {
  }

  lemma {:induction false} OneMoreContext(es: set<Entry>, c: Entry)
    requires c !in es
    ensures ContextRows(es + {c}) == ContextRows(es) + (if c.context.Some? then {Row(c.context.value, c)} else {})
    ensures forall r <- ContextRows(es) :: r.entry != c
  {
  }

  /** The rows for one more entry. */
  lemma {:induction false} OneMore(es: set<Entry>, c: Entry)
    requires c !in es
    ensures IdsOf(es + {c}) == IdsOf(es) + (if c.id != null then {c.id} else {})
    ensures IdRows(es + {c}) == IdRows(es) + (if c.id != null then {IdRow(c.id.value, c.id, c)} else {})
    ensures NameRows(es + {c}) == NameRows(es) + (if c.name.Some? then {Row(c.name.value, c)} else {})
    ensures ContextRows(es + {c}) == ContextRows(es) + (if c.context.Some? then {Row(c.context.value, c)} else {})
    ensures forall r <- IdRows(es) :: r.entry != c
    ensures forall r <- NameRows(es) :: r.entry != c
    ensures forall r <- ContextRows(es) :: r.entry != c
  {
    hide IdRows, NameRows, ContextRows, IdsOf;
    OneMoreId(es, c);
    OneMoreName(es, c);
    OneMoreContext(es, c);
  }

  /** Where only names have changed, the other tables are to hold what they held. */
  twostate lemma NamesChanged(es: set<Entry>)
    requires forall e <- es :: e.id == old(e.id) && e.context == old(e.context)
    requires forall e <- es :: e.id != null ==> e.id.value == old(e.id.value)
    ensures IdsOf(es) == old(IdsOf(es)) && IdRows(es) == old(IdRows(es)) && ContextRows(es) == old(ContextRows(es))
  {
  }

  /** Where only IDs have changed, likewise. */
  twostate lemma IdsChanged(es: set<Entry>)
    requires forall e <- es :: e.name == old(e.name) && e.context == old(e.context)
    ensures NameRows(es) == old(NameRows(es)) && ContextRows(es) == old(ContextRows(es))
  {
  }

  lemma {:induction false} FindableMore(es: set<Entry>, c: Entry)
    requires Findable(es) && (c.id != null || c.name.Some? || c.context.Some?) && (c.id != null ==> c.id !in IdsOf(es))
    ensures Findable(es + {c})
  {
    if c.id != null {
      forall e <- es ensures e.id != c.id { assert e.id != null ==> e.id in IdsOf(es); }
    }
  }

  twostate lemma StillFindable(es: set<Entry>)
    requires old(Findable(es)) && forall e <- es :: e.id == old(e.id) && e.context == old(e.context)
    requires forall e <- es :: e.name.Some? || e.name == old(e.name)
    ensures Findable(es)
  {
  }

  lemma {:induction false} FindableLess(es: set<Entry>, fs: set<Entry>)
    requires Findable(es) && fs <= es
    ensures Findable(fs) && IdsOf(fs) <= IdsOf(es)
  {
  }

  lemma {:induction false} UniqueLess(es: set<Entry>, fs: set<Entry>)
    requires Unique(es) && fs <= es
    ensures Unique(fs)
  {
  }

  lemma {:induction false} UniqueMore(es: set<Entry>, c: Entry)
    requires Unique(es) && (c.id != null ==> forall e <- es :: e.id != null ==> e.id.value != c.id.value)
    ensures Unique(es + {c})
  {
  }

  /** The ID of one entry is not that of another. */
  lemma {:induction false} OwnId(es: set<Entry>, e: Entry)
    requires Findable(es) && e in es && e.id != null
    ensures e.id in IdsOf(es) && e.id !in IdsOf(es - {e})
  {
  }

  class Cache {
    const idType: IdType
    const bucket: Bucket
    var idTable: set<IdRow>
    var nameTable: set<Row<Name>>
    var contextTable: set<Row<Context>>
    ghost var entries: set<Entry>

    constructor (idType: IdType, bucket: Bucket)
      requires BucketOk(idType, bucket)
      ensures Valid() && entries == {} && this.idType == idType && this.bucket == bucket
    {
      this.idType, this.bucket := idType, bucket;
      idTable, nameTable, contextTable := {}, {}, {};
      entries := {};
    }

    /** Every live entry is filed under exactly its current ID, name and context, and nothing else is
        filed. */
    ghost predicate Valid()
      reads this, entries, IdsOf(entries)
    {
      && BucketOk(idType, bucket) && Findable(entries)
      && idTable == IdRows(entries) && nameTable == NameRows(entries) && contextTable == ContextRows(entries)
    }

    /** Two caches, each valid, with no entry and no ID in memory in common. */
    ghost predicate Together(other: Cache)
      reads this, entries, IdsOf(entries), other, other.entries, IdsOf(other.entries)
    {
      this != other && Valid() && other.Valid() && entries !! other.entries && IdsOf(entries) !! IdsOf(other.entries)
    }

    // ---- The hash tables -------------------------------------------------------------------------------

    /** silc_hash_id_compare. */
    predicate SameKey(a: IdValue, b: IdValue) {
      if idType.Client? then a.hash == b.hash else a == b
    }

    /** A row found in the bucket of k by comparison with k. */
    predicate Finds(r: IdRow, k: IdValue)
      reads r.key
    {
      bucket(r.filed) == bucket(k) && SameKey(r.key.value, k)
    }

    /** silc_hash_table_del_by_context on the ID table. */
    method DelId(key: Id, e: Entry) returns (found: bool)
      modifies this`idTable
      ensures found <==> exists r <- old(idTable) :: r.entry == e && Finds(r, key.value)
      ensures found ==> exists r <- old(idTable) :: r.entry == e && Finds(r, key.value) && idTable == old(idTable) - {r}
      ensures !found ==> idTable == old(idTable)
    {
      var k := key.value;
      if r :| r in idTable && r.entry == e && Finds(r, k) {
        idTable := idTable - {r};
        return true;
      }
      return false;
    }

    method DelName(key: Name, e: Entry) returns (found: bool)
      modifies this`nameTable
      ensures found <==> Row(key, e) in old(nameTable)
      ensures nameTable == old(nameTable) - {Row(key, e)}
      ensures !found ==> nameTable == old(nameTable)
    {
      found := Row(key, e) in nameTable;
      assert !found ==> nameTable - {Row(key, e)} == nameTable;
      nameTable := nameTable - {Row(key, e)};
    }

    method DelContext(key: Context, e: Entry) returns (found: bool)
      modifies this`contextTable
      ensures found <==> Row(key, e) in old(contextTable)
      ensures contextTable == old(contextTable) - {Row(key, e)}
      ensures !found ==> contextTable == old(contextTable)
    {
      found := Row(key, e) in contextTable;
      assert !found ==> contextTable - {Row(key, e)} == contextTable;
      contextTable := contextTable - {Row(key, e)};
    }

    /** silc_hash_table_add on the ID table; a row is never added twice. */
    method AddId(key: Id, e: Entry)
      requires IdRow(key.value, key, e) !in idTable
      modifies this`idTable
      ensures idTable == old(idTable) + {IdRow(key.value, key, e)}
    {
      idTable := idTable + {IdRow(key.value, key, e)};
    }

    method AddName(key: Name, e: Entry)
      requires Row(key, e) !in nameTable
      modifies this`nameTable
      ensures nameTable == old(nameTable) + {Row(key, e)}
    {
      nameTable := nameTable + {Row(key, e)};
    }

    method AddContext(key: Context, e: Entry)
      requires Row(key, e) !in contextTable
      modifies this`contextTable
      ensures contextTable == old(contextTable) + {Row(key, e)}
    {
      contextTable := contextTable + {Row(key, e)};
    }

    // ---- Finding -----------------------------------------------------------------------------------------

    /** silc_idcache_find_by_id_one: an entry with this full ID, if there is one. */
    method FindByIdOne(k: IdValue) returns (e: Entry?)
      requires Valid()
      ensures e != null ==> e in entries && e.id != null && e.id.value == k
      ensures e == null ==> forall f <- entries :: f.id != null ==> f.id.value != k
    {
      if r :| r in idTable && bucket(r.filed) == bucket(k) && r.key.value == k {
        return r.entry;
      }
      forall f <- entries | f.id != null ensures f.id.value != k {
        assert IdRow(f.id.value, f.id, f) in idTable;
      }
      return null;
    }

    /** silc_idcache_find_by_id: all entries whose ID compares equal in the table. */
    method FindById(k: IdValue) returns (found: set<Entry>)
      requires Valid()
      ensures forall e :: e in found <==> e in entries && e.id != null && SameKey(e.id.value, k)
      ensures idType == Client ==> forall e <- entries :: e.id != null ==> (e in found <==> e.id.value.hash == k.hash)
      ensures idType != Client ==> forall e <- entries :: e.id != null ==> (e in found <==> e.id.value == k)
    {
      found := set r | r in idTable && Finds(r, k) :: r.entry;
      forall e | e in entries && e.id != null && SameKey(e.id.value, k) ensures e in found {
        var r := IdRow(e.id.value, e.id, e);
        assert r in idTable && Finds(r, k);
      }
    }

    /** silc_idcache_find_by_context: an entry with this context, if there is one. */
    method FindByContext(k: Context) returns (e: Entry?)
      requires Valid()
      ensures e != null ==> e in entries && e.context == Some(k)
      ensures e == null ==> forall f <- entries :: f.context != Some(k)
    {
      if r :| r in contextTable && r.key == k { return r.entry; }
      forall f <- entries ensures f.context != Some(k) {
        if f.context.Some? { assert Row(f.context.value, f) in contextTable; }
      }
      return null;
    }

    /** silc_idcache_find_by_name_one. */
    method FindByNameOne(k: Name) returns (e: Entry?)
      requires Valid()
      ensures e != null ==> e in entries && e.name == Some(k)
      ensures e == null ==> forall f <- entries :: f.name != Some(k)
    {
      if r :| r in nameTable && r.key == k { return r.entry; }
      forall f <- entries ensures f.name != Some(k) {
        if f.name.Some? { assert Row(f.name.value, f) in nameTable; }
      }
      return null;
    }

    /** An entry found in the ID table by comparing with k in the table's way. */
    method FindInIdTable(k: IdValue) returns (e: Entry?)
      requires Valid()
      ensures e != null ==> e in entries && e.id != null && SameKey(e.id.value, k)
      ensures e == null ==> forall f <- entries :: f.id != null ==> !SameKey(f.id.value, k)
    {
      if r :| r in idTable && Finds(r, k) { return r.entry; }
      forall f <- entries | f.id != null ensures !SameKey(f.id.value, k) {
        assert IdRow(f.id.value, f.id, f) in idTable;
        assert !Finds(IdRow(f.id.value, f.id, f), k);
      }
      return null;
    }

    // ---- Adding and deleting ---------------------------------------------------------------------------

    /** silc_idcache_add, where the tables have room. The ID in memory must not be in use in another cache. */
    method Add(name: Option<Name>, id: Id?, context: Option<Context>, ghost other: Cache) returns (c: Entry?)
      requires Together(other) && (id != null ==> id !in IdsOf(other.entries))
      modifies this
      ensures Together(other)
      ensures c == null <==> (
          || (name == None && id == null && context == None)
          || (id != null && exists e <- old(entries) :: e.id != null && e.id.value == id.value))
      ensures c == null ==> unchanged(this)
      ensures c != null ==>
        && fresh(c) && entries == old(entries) + {c}
        && c.id == id && c.name == name && c.context == context
      ensures old(Unique(entries)) ==> Unique(entries)
    {
      hide IdRows, NameRows, ContextRows, Findable, Unique, Valid;
      if name == None && id == null && context == None { return null; }
      c := new Entry(id, name, context);
      if id != null {
        var e := FindByIdOne(id.value);
        if e != null { return null; }
      }
      ghost var unique := Unique(entries);
      if unique { UniqueMore(entries, c); }
      IdsMore(entries, c);
      assert unique ==> Unique(entries + {c});
      File(c);
    }

    lemma {:induction false} IdsMore(es: set<Entry>, c: Entry)
      ensures IdsOf(es + {c}) == IdsOf(es) + (if c.id != null then {c.id} else {})
    {
      if c.id != null { assert c in es + {c}; }
      assert IdsOf(es + {c}) == IdsOf(es) + (if c.id != null then {c.id} else {});
    }

    /** Files an entry in the tables for whatever it has. */
    method File(c: Entry)
      requires Valid() && c !in entries && (c.id != null || c.name.Some? || c.context.Some?)
      requires c.id != null ==> c.id !in IdsOf(entries)
      modifies this
      ensures Valid() && entries == old(entries) + {c}
    {
      hide IdRows, NameRows, ContextRows, Findable, BucketOk;
      ghost var more := entries + {c};
      OneMore(entries, c);
      FindableMore(entries, c);
      if c.id != null { AddId(c.id, c); }
      assert idTable == IdRows(more);
      if c.name != None { AddName(c.name.value, c); }
      assert nameTable == NameRows(more);
      if c.context != None { AddContext(c.context.value, c); }
      assert contextTable == ContextRows(more);
      entries := more;
    }

    /** Takes the entry out of all three tables, saying whether the last deletion found it. */
    method Unfile(entry: Entry) returns (ret: bool)
      requires Valid()
      modifies this
      ensures Valid() && entries == old(entries) - {entry} && (ret <==> entry in old(entries))
      ensures !ret ==> unchanged(this)
    {
      hide IdRows, NameRows, ContextRows, Findable, Finds, BucketOk;
      ret := false;
      ghost var rest := entries - {entry};
      assert entry in entries ==> rest + {entry} == entries;
      assert entry !in entries ==> rest == entries;
      OneMore(rest, entry);
      FindableLess(entries, rest);
      Something(entries, entry);
      RowsOfOthers(entries, entry);
      ret := DelRows(entry);
      entries := rest;
    }

    /** The three deletions. The last one made decides the result. */
    method DelRows(entry: Entry) returns (ret: bool)
      requires forall r <- idTable :: r.entry == entry ==>
        entry.id != null && r == IdRow(entry.id.value, entry.id, entry)
      modifies this`idTable, this`nameTable, this`contextTable
      ensures entry.id != null ==> idTable == old(idTable) - {IdRow(entry.id.value, entry.id, entry)}
      ensures entry.name.Some? ==> nameTable == old(nameTable) - {Row(entry.name.value, entry)}
      ensures entry.context.Some? ==> contextTable == old(contextTable) - {Row(entry.context.value, entry)}
      ensures entry.id == null ==> idTable == old(idTable)
      ensures entry.name.None? ==> nameTable == old(nameTable)
      ensures entry.context.None? ==> contextTable == old(contextTable)
      ensures ret <==>
        if entry.id != null then IdRow(entry.id.value, entry.id, entry) in old(idTable)
        else if entry.context.Some? then Row(entry.context.value, entry) in old(contextTable)
        else entry.name.Some? && Row(entry.name.value, entry) in old(nameTable)
    {
      hide Finds;
      ret := false;
      OwnFound(entry);
      if entry.name.Some? { ret := DelName(entry.name.value, entry); }
      if entry.context.Some? { ret := DelContext(entry.context.value, entry); }
      if entry.id != null {
        ret := DelId(entry.id, entry);
        assert !ret ==> idTable == idTable - {IdRow(entry.id.value, entry.id, entry)};
      }
    }

    lemma {:induction false} OwnFound(e: Entry)
      ensures e.id != null ==> Finds(IdRow(e.id.value, e.id, e), e.id.value)
    {
    }

    lemma {:induction false} Something(es: set<Entry>, e: Entry)
      requires Findable(es)
      ensures e in es ==> e.id != null || e.name.Some? || e.context.Some?
    {
    }

    /** Rows of an entry are there only if it is, and its only ID row is the one under its current ID. */
    lemma {:induction false} RowsOfOthers(es: set<Entry>, e: Entry)
      ensures forall r <- IdRows(es) :: r.entry == e ==> e in es && e.id != null && r == IdRow(e.id.value, e.id, e)
      ensures forall k :: Row(k, e) in NameRows(es) ==> e in es
      ensures forall k :: Row(k, e) in ContextRows(es) ==> e in es
    {
    }

    /** silc_idcache_del: TRUE exactly for an entry of this cache. */
    method Del(entry: Entry, ghost other: Cache) returns (ret: bool)
      requires Together(other)
      modifies this
      ensures Together(other)
      ensures ret <==> entry in old(entries)
      ensures entries == old(entries) - {entry}
      ensures !ret ==> unchanged(this)
      ensures old(Unique(entries)) ==> Unique(entries)
    {
      hide IdRows, NameRows, ContextRows, Findable, Unique, Valid;
      if Unique(entries) { UniqueLess(entries, entries - {entry}); }
      ret := Unfile(entry);
    }

    /** silc_idcache_del_by_context: deletes an entry with this context, if there is one. */
    method DelByContext(k: Context, ghost other: Cache) returns (ret: bool)
      requires Together(other)
      modifies this
      ensures Together(other) && (ret <==> exists e <- old(entries) :: e.context == Some(k))
      ensures ret ==> exists e <- old(entries) :: e.context == Some(k) && entries == old(entries) - {e}
      ensures !ret ==> unchanged(this)
      ensures old(Unique(entries)) ==> Unique(entries)
    {
      hide IdRows, NameRows, ContextRows, Findable, Unique;
      var c := FindByContext(k);
      if c == null { return false; }
      ret := Del(c, other);
    }

    /** silc_idcache_del_by_id: deletes an entry whose ID compares equal in the table. */
    method DelById(k: IdValue, ghost other: Cache) returns (ret: bool)
      requires Together(other)
      modifies this
      ensures Together(other) && (ret <==> exists e <- old(entries) :: e.id != null && SameKey(e.id.value, k))
      ensures ret ==>
        exists e <- old(entries) :: e.id != null && SameKey(e.id.value, k) && entries == old(entries) - {e}
      ensures !ret ==> unchanged(this)
      ensures old(Unique(entries)) ==> Unique(entries)
    {
      hide IdRows, NameRows, ContextRows, Findable, Unique;
      var c := FindInIdTable(k);
      if c == null { return false; }
      ret := Del(c, other);
    }

    // ---- Updating and moving -----------------------------------------------------------------------------

    /** The first half of silc_idcache_update: the ID, overwritten in place if there is one. */
    method UpdateId(entry: Entry, newId: Id) returns (ret: bool)
      requires Valid() && (entry in entries && entry.id == null ==> newId !in IdsOf(entries))
      modifies this`idTable, entry`id, if entry.id == null then {} else {entry.id}
      ensures entry in entries ==>
        && Valid() && ret
        && entry.id == (if old(entry.id) == null then newId else old(entry.id)) && entry.id.value == old(newId.value)
      ensures entry in entries ==> IdsOf(entries - {entry}) == old(IdsOf(entries - {entry}))
      ensures entry !in entries ==> (ret <==> old(entry.id) == null)
      ensures !ret ==> unchanged(this) && unchanged(entry) && unchanged(entry.id)
      ensures ret && entry !in entries ==>
        entry.id == newId && idTable == old(idTable) + {IdRow(newId.value, newId, entry)} && !Valid()
    {
      hide IdRows, NameRows, ContextRows, Findable, Finds, BucketOk;
      ghost var rest := entries - {entry};
      assert entry in entries ==> rest + {entry} == entries;
      assert entry !in entries ==> rest == entries;
      OneMoreId(rest, entry);
      FindableLess(entries, rest);
      RowsOfOthers(entries, entry);
      Something(entries, entry);
      if entry.id != null {
        if entry in entries { OwnId(entries, entry); }
        OwnFound(entry);
        var found := DelId(entry.id, entry);
        if !found { return false; }
        entry.id.value := newId.value;
      } else {
        entry.id := newId;
      }
      AddId(entry.id, entry);
      OneMoreId(rest, entry);
      IdsChanged(entries);
      if entry in entries { FindableMore(rest, entry); } else { Foreign(entry); }
      ret := true;
    }

    /** The second half: the name. */
    method UpdateName(entry: Entry, newName: Name) returns (ret: bool)
      requires entry in entries ==> Valid()
      requires nameTable == NameRows(entries)
      modifies this`nameTable, entry`name
      ensures entry in entries ==> Valid() && ret && entry.name == Some(newName)
      ensures entry !in entries ==> (ret <==> old(entry.name) == None)
      ensures !ret ==> unchanged(this) && unchanged(entry)
      ensures ret && entry !in entries ==>
        entry.name == Some(newName) && nameTable == old(nameTable) + {Row(newName, entry)} && !Valid()
    {
      hide IdRows, NameRows, ContextRows, Findable;
      ghost var rest := entries - {entry};
      assert entry in entries ==> rest + {entry} == entries;
      assert entry !in entries ==> rest == entries;
      OneMoreName(rest, entry);
      if entry in entries { KnownFindable(); }
      if entry.name.Some? {
        var found := DelName(entry.name.value, entry);
        if !found { return false; }
      }
      entry.name := Some(newName);
      AddName(newName, entry);
      OneMoreName(rest, entry);
      if entry in entries {
        NamesChanged(entries);
        StillFindable(entries);
      } else {
        Foreign(entry);
      }
      ret := true;
    }

    /** A row of an entry that is not in this cache makes the tables wrong. */
    lemma {:induction false} Foreign(entry: Entry)
      requires entry !in entries
      requires (exists r <- idTable :: r.entry == entry) || (exists r <- nameTable :: r.entry == entry)
      ensures !Valid()
    {
    }

    lemma {:induction false} IdNotAmong(es: set<Entry>, e: Entry)
      requires Findable(es) && e in es
      ensures e.id != null ==> e.id !in IdsOf(es - {e})
    {
    }

    /** No entry but this one has the full ID v. */
    ghost predicate Unused(entry: Entry, v: IdValue)
      reads this, entries, IdsOf(entries)
    {
      forall f <- entries :: f != entry && f.id != null ==> f.id.value != v
    }

    /** The others do not have the full ID that the entry is to have. */
    lemma {:induction false} OthersDiffer(e: Entry, newId: Id?)
      requires e in entries && Unique(entries) && (newId != null ==> Unused(e, newId.value))
      ensures Unique(entries - {e})
      ensures newId != null ==> forall f <- entries - {e} :: f.id != null ==> f.id.value != newId.value
      ensures newId == null && e.id != null ==> forall f <- entries - {e} :: f.id != null ==> f.id.value != e.id.value
    {
    }

    /** Would this update file an entry of another cache in this one? */
    predicate Misfiles(entry: Entry, newId: Id?, newName: Option<Name>, own: bool)
      reads entry
    {
      !own && if newId != null then entry.id == null else newName.Some? && entry.name.None?
    }

    /** Would this update fail to find what an entry of another cache is filed under? */
    predicate Refuses(entry: Entry, newId: Id?, newName: Option<Name>, own: bool)
      reads entry
    {
      !own && ((newId != null && entry.id != null) || (newName.Some? && entry.name.Some?))
    }

    /** silc_idcache_update: the ID is overwritten in place, or set if there was none, the name is
        replaced, and the entry is filed anew under both. The tables of both caches stay right unless
        an entry of the other cache is filed here. */
    method Update(entry: Entry, newId: Id?, newName: Option<Name>, ghost other: Cache) returns (ret: bool)
      requires Together(other) && (entry in entries || entry in other.entries)
      requires newId != null && entry.id == null ==> newId !in IdsOf(entries) && newId !in IdsOf(other.entries)
      modifies this`idTable, this`nameTable, entry`id, entry`name, if entry.id == null then {} else {entry.id}
      ensures ret <==> !old(Refuses(entry, newId, newName, entry in entries))
      ensures Together(other) <==> !old(Misfiles(entry, newId, newName, entry in entries))
      ensures entry !in entries && !old(Misfiles(entry, newId, newName, entry in entries)) ==>
        unchanged(this) && unchanged(entry) && (entry.id != null ==> unchanged(entry.id))
      ensures entry in entries && newId == null ==>
        entry.id == old(entry.id) && (entry.id != null ==> entry.id.value == old(entry.id.value))
      ensures entry in entries && newId != null ==>
        entry.id == (if old(entry.id) == null then newId else old(entry.id)) && entry.id.value == old(newId.value)
      ensures entry in entries ==> entry.name == if newName == None then old(entry.name) else newName
      ensures entry in entries && old(Unique(entries)) && (newId != null ==> old(Unused(entry, newId.value))) ==>
        Unique(entries)
    {
      hide IdRows, NameRows, ContextRows, Findable, Unique, Valid, BucketOk, Unused;
      ghost var own, rest := entry in entries, entries - {entry};
      ghost var unique := own && Unique(entries) && (newId != null ==> Unused(entry, newId.value));
      KnownFindable();
      if own {
        assert rest + {entry} == entries;
        IdsMore(rest, entry);
        IdNotAmong(entries, entry);
      }
      if unique { OthersDiffer(entry, newId); }
      if newId != null {
        ret := UpdateId(entry, newId);
        if !ret { return; }
        if own {
          IdsMore(rest, entry);
          KnownFindable();
        }
      }
      if newName != None {
        ret := UpdateName(entry, newName.value);
        if !ret { return; }
        if own { IdsMore(rest, entry); }
      }
      if unique { UniqueMore(rest, entry); }
      ret := true;
    }

    lemma {:induction false} KnownFindable()
      requires Valid()
      ensures Findable(entries) && nameTable == NameRows(entries)
    {
    }

    /** The key silc_idcache_move looks an entry up by is that of no other entry. */
    ghost predicate OnlyOne(entry: Entry)
      reads this, entries, IdsOf(entries), entry, if entry.id == null then {} else {entry.id}
    {
      forall f <- entries :: f != entry ==>
        if entry.context.Some? then f.context != entry.context
        else if entry.name.Some? then f.name != entry.name
        else entry.id != null && f.id != null ==> !SameKey(f.id.value, entry.id.value)
    }

    /** silc_idcache_move. FALSE changes nothing. Moving to the same cache files an entry anew if it has
        no ID, and is refused otherwise. */
    method Move(to': Cache, entry: Entry?) returns (ret: bool)
      requires if to' == this then Valid() else Together(to')
      modifies this, to'
      ensures if to' == this then Valid() && entries == old(entries) else Together(to')
      ensures ret ==> entry != null && entry in old(entries)
      ensures ret && to' == this ==> entry.id == null
      ensures ret && to' != this ==> entries == old(entries) - {entry} && to'.entries == old(to'.entries) + {entry}
      ensures !ret ==> unchanged(this) && unchanged(to')
      ensures ret ==> idType == to'.idType
      ensures ret && entry.id != null ==> forall f <- old(to'.entries) :: f.id != null ==> f.id.value != entry.id.value
      ensures (
          && entry != null && entry in old(entries) && idType == to'.idType && old(OnlyOne(entry))
          && (entry.id != null ==> forall f <- old(to'.entries) :: f.id != null ==> f.id.value != entry.id.value)) ==>
        ret
      ensures old(Unique(entries)) && old(Unique(to'.entries)) ==> Unique(entries) && Unique(to'.entries)
    {
      hide IdRows, NameRows, ContextRows, Unique, Findable, OnlyOne;
      if entry == null || idType != to'.idType { return false; }
      assert allocated(IdsOf(entries)) && allocated(IdsOf(to'.entries));
      KnownFindable();
      var c := LookUp(entry);
      if c == null || entry != c { return false; }
      if c.id != null {
        var f := to'.FindByIdOne(c.id.value);
        if f != null { return false; }
      }
      Transfer(to', c);
      ret := true;
    }

    /** The entry found under the context of the given one, or else its name, or else its ID. */
    method LookUp(entry: Entry) returns (c: Entry?)
      requires Valid()
      ensures c == entry ==> entry in entries
      ensures entry in entries && OnlyOne(entry) ==> c == entry
    {
      hide IdRows, NameRows, ContextRows, Unique, Valid;
      KnownFindable();
      if entry.context.Some? {
        c := FindByContext(entry.context.value);
      } else if entry.name.Some? {
        c := FindByNameOne(entry.name.value);
      } else if entry.id != null {
        c := FindInIdTable(entry.id.value);
      } else {
        c := null;
      }
    }

    /** Unfiles an entry here and files it there. */
    method Transfer(to': Cache, c: Entry)
      requires if to' == this then Valid() else Together(to')
      requires c in entries && (c.id != null ==> forall f <- to'.entries :: f.id != null ==> f.id.value != c.id.value)
      modifies this, to'
      ensures if to' == this then Valid() && entries == old(entries) else Together(to')
      ensures to' != this ==> entries == old(entries) - {c} && to'.entries == old(to'.entries) + {c}
      ensures old(Unique(entries)) && old(Unique(to'.entries)) ==> Unique(entries) && Unique(to'.entries)
    {
      hide IdRows, NameRows, ContextRows, Unique, Valid, Findable;
      KnownFindable();
      if to' != this { MoveKeepsUnique(to', c); }
      assert entries - {c} + {c} == entries;
      IdsMore(to'.entries, c);
      FindableLess(entries, entries - {c});
      IdNotAmong(entries, c);
      Something(entries, c);
      assert c.id != null ==> c.id in IdsOf(entries);
      var unfiled := Unfile(c);
      to'.File(c);
    }

    lemma {:induction false} MoveKeepsUnique(to': Cache, c: Entry)
      requires c.id != null ==> forall f <- to'.entries :: f.id != null ==> f.id.value != c.id.value
      ensures Unique(entries) && Unique(to'.entries) ==> Unique(entries - {c}) && Unique(to'.entries + {c})
    {
      hide Unique;
      if Unique(entries) { UniqueLess(entries, entries - {c}); }
      if Unique(to'.entries) { UniqueMore(to'.entries, c); }
    }
  }

  /** Updating an entry through another cache files it there: the state is wrong afterwards. */
  method UpdateThroughOther() returns (a: Cache, b: Cache, e: Entry?, updated: bool)
    ensures e != null && e in b.entries && e !in a.entries && updated && !a.Together(b)
  {
    var bucket: Bucket := _ => 0;
    a := new Cache(Server, bucket);
    b := new Cache(Server, bucket);
    e := b.Add(Some("server"), null, None, a);
    var id := new Id(IdValue(1, 2));
    updated := a.Update(e, id, None, b);
  }

  // ---- Runs ----------------------------------------------------------------------------------------------

  /** One call on one of two caches, with an entry of either given by its place among the live ones,
      those of the cache that is called first. */
  datatype Op =
    | AddOp(second: bool, name: Option<Name>, id: Option<IdValue>, context: Option<Context>)
    | DelOp(second: bool, k: nat)
    | UpdateOp(second: bool, k: nat, id: Option<IdValue>, name: Option<Name>)
    | MoveOp(second: bool, k: nat, away: bool)

  function ToSet(s: seq<Entry>): set<Entry> {
    set x | x in s
  }

  function Minus(s: seq<Entry>, e: Entry): seq<Entry> {
    if s == [] then [] else (if s[0] == e then [] else [s[0]]) + Minus(s[1..], e)
  }

  lemma {:induction false} MinusSet(s: seq<Entry>, e: Entry)
    ensures forall x :: x in Minus(s, e) <==> x in s && x != e
    ensures ToSet(Minus(s, e)) == ToSet(s) - {e}
  {
    if s != [] {
      MinusSet(s[1..], e);
      assert s == [s[0]] + s[1..];
    }
    assert ToSet(Minus(s, e)) == ToSet(s) - {e};
  }

  /** The ID a call brings in, if it brings one. */
  function Given(op: Op): Option<IdValue> {
    if op.AddOp? || op.UpdateOp? then op.id else None
  }

  /** Whether each update that gives an ID gives one that no earlier call gave. */
  predicate NewIds(ops: seq<Op>) {
    forall j :: 0 <= j < |ops| && ops[j].UpdateOp? && ops[j].id.Some? ==>
      forall i :: 0 <= i < j ==> Given(ops[i]) != ops[j].id
  }

  /** The full IDs of these entries are among those held. */
  ghost predicate Within(es: set<Entry>, held: set<IdValue>)
    reads es, IdsOf(es)
  {
    forall e <- es :: e.id != null ==> e.id.value in held
  }

  lemma {:induction false} WithinLess(es: set<Entry>, held: set<IdValue>, fs: set<Entry>, more: set<IdValue>)
    requires Within(es, held) && fs <= es && held <= more
    ensures Within(fs, more)
  {
  }

  lemma {:induction false} WithinMore(es: set<Entry>, held: set<IdValue>, e: Entry, more: set<IdValue>)
    requires Within(es, held) && held <= more && (e.id != null ==> e.id.value in more)
    ensures Within(es + {e}, more)
  {
  }

  lemma {:induction false} WithinOne(es: set<Entry>, held: set<IdValue>, e: Entry)
    requires Within(es, held) && e in es
    ensures e.id != null ==> e.id.value in held
  {
  }

  lemma {:induction false} NotHeld(c: Cache, es: set<Entry>, held: set<IdValue>, e: Entry, v: IdValue)
    requires Within(es, held) && c.entries <= es && v !in held
    ensures c.Unused(e, v)
  {
  }

  ghost function Plus(held: set<IdValue>, v: Option<IdValue>): set<IdValue> {
    if v.Some? then held + {v.value} else held
  }

  lemma {:induction false} UniqueSplit(es: set<Entry>, e: Entry)
    requires Unique(es) && e in es
    ensures Unique(es - {e})
    ensures e.id != null ==> forall f <- es - {e} :: f.id != null ==> f.id.value != e.id.value
  {
  }

  method DoAdd(c: Cache, other: Cache, name: Option<Name>, value: Option<IdValue>, context: Option<Context>,
               ghost held: set<IdValue>)
    returns (e: Entry?)
    requires c.Together(other) && Within(c.entries + other.entries, held)
    modifies c
    ensures c.Together(other) && (e != null ==> fresh(e) && c.entries == old(c.entries) + {e})
    ensures e == null ==> c.entries == old(c.entries)
    ensures forall x <- IdsOf(c.entries) :: x in old(IdsOf(c.entries)) || fresh(x)
    ensures Within(c.entries + other.entries, Plus(held, value))
    ensures old(Unique(c.entries)) ==> Unique(c.entries)
  {
    hide IdRows, NameRows, ContextRows, Findable, Unique, Cache.Valid, Within;
    ghost var es, more := c.entries + other.entries, Plus(held, value);
    WithinLess(es, held, es, more);
    assert allocated(IdsOf(es));
    var id: Id? := null;
    if value.Some? { id := new Id(value.value); }
    e := c.Add(name, id, context, other);
    assert Within(es, more);
    if e != null {
      WithinMore(es, more, e, more);
      assert es + {e} == c.entries + other.entries;
    }
  }

  /** An update of an entry of c. */
  method UpdateOwn(c: Cache, other: Cache, e: Entry, value: Option<IdValue>, name: Option<Name>,
                   ghost held: set<IdValue>)
    returns (ghost unused: bool)
    requires c.Together(other) && e in c.entries && Within(c.entries + other.entries, held)
    modifies c, c.entries, IdsOf(c.entries)
    ensures c.Together(other) && c.entries == old(c.entries)
    ensures forall x <- IdsOf(c.entries) :: x in old(IdsOf(c.entries)) || fresh(x)
    ensures Within(c.entries + other.entries, Plus(held, value))
    ensures unused <==> (value.Some? ==> old(c.Unused(e, value.value)))
    ensures value.Some? && value.value !in held ==> unused
    ensures old(Unique(c.entries)) && unused ==> Unique(c.entries)
  {
    hide IdRows, NameRows, ContextRows, Findable, Unique, Cache.Valid, Within;
    ghost var es, more := c.entries + other.entries, Plus(held, value);
    ghost var rest := es - {e};
    WithinLess(es, held, rest, more);
    WithinOne(es, held, e);
    if value.Some? && value.value !in held { NotHeld(c, es, held, e, value.value); }
    unused := value.Some? ==> c.Unused(e, value.value);
    var id: Id? := null;
    if value.Some? { id := new Id(value.value); }
    var ret := c.Update(e, id, name, other);
    WithinMore(rest, more, e, more);
    assert rest + {e} == es;
  }

  /** An update, through c, of an entry of the other cache. It is right unless it files the entry in c. */
  method UpdateForeign(c: Cache, other: Cache, e: Entry, value: Option<IdValue>, name: Option<Name>,
                       ghost held: set<IdValue>)
    returns (right: bool)
    requires c.Together(other) && e in other.entries && Within(c.entries + other.entries, held)
    modifies c, other.entries, IdsOf(other.entries)
    ensures c.entries == old(c.entries) && (right <==> c.Together(other))
    ensures right <==> if value.Some? then old(e.id) != null else name.None? || old(e.name).Some?
    ensures right ==> IdsOf(other.entries) == old(IdsOf(other.entries))
    ensures right ==> Within(c.entries + other.entries, held)
    ensures right && old(Unique(c.entries)) ==> Unique(c.entries)
    ensures right && old(Unique(other.entries)) ==> Unique(other.entries)
  {
    hide IdRows, NameRows, ContextRows, Findable, Unique, Cache.Valid, Within;
    ghost var es, rest := c.entries + other.entries, other.entries - {e};
    ghost var unique := Unique(other.entries);
    WithinLess(es, held, es - {e}, held);
    WithinOne(es, held, e);
    KnownTogether(c, other);
    c.IdsMore(rest, e);
    c.IdNotAmong(other.entries, e);
    if unique { UniqueSplit(other.entries, e); }
    assert rest + {e} == other.entries && es - {e} + {e} == es;
    var id: Id? := null;
    if value.Some? { id := new Id(value.value); }
    right := if value.Some? then e.id != null else name.None? || e.name.Some?;
    var ret := c.Update(e, id, name, other);
    if right {
      WithinMore(es - {e}, held, e, held);
      if unique { UniqueMore(rest, e); }
    }
  }

  lemma {:induction false} KnownTogether(c: Cache, other: Cache)
    requires c.Together(other)
    ensures Findable(c.entries) && Findable(other.entries)
  {
  }

  /** Does this call update an entry of the other cache that has no key of the kind given? */
  predicate Misplaces(op: Op, mine: seq<Entry>, theirs: seq<Entry>)
    reads theirs
  {
    op.UpdateOp? && |mine| <= op.k < |mine| + |theirs|
    && var e := theirs[op.k - |mine|];
       if op.id.Some? then e.id == null else op.name.Some? && e.name.None?
  }

  /** Does this call give an ID, in an update, that another entry of the cache called has? */
  ghost predicate GivesUsed(c: Cache, op: Op, mine: seq<Entry>)
    reads c, c.entries, IdsOf(c.entries)
  {
    op.UpdateOp? && op.id.Some? && op.k < |mine| && !c.Unused(mine[op.k], op.id.value)
  }

  /** One call on c; `mine` and `theirs` are the live entries of the two caches. */
  method DoOp(c: Cache, other: Cache, mine: seq<Entry>, theirs: seq<Entry>, op: Op, ghost held: set<IdValue>)
    returns (mine': seq<Entry>, theirs': seq<Entry>, right: bool, ghost unused: bool)
    requires c.Together(other) && c.entries == ToSet(mine) && other.entries == ToSet(theirs)
    requires Within(c.entries + other.entries, held)
    modifies c, other, c.entries, IdsOf(c.entries), other.entries, IdsOf(other.entries)
    ensures (right <==> c.Together(other)) && (right <==> !old(Misplaces(op, mine, theirs)))
    ensures unused <==> !old(GivesUsed(c, op, mine))
    ensures Given(op).Some? && Given(op).value !in held ==> unused
    ensures !op.UpdateOp? || op.id.None? ==> unused
    ensures right ==> c.entries == ToSet(mine') && other.entries == ToSet(theirs')
    ensures right ==> Within(c.entries + other.entries, Plus(held, Given(op)))
    ensures right && unused && old(Unique(c.entries)) && old(Unique(other.entries)) ==>
      Unique(c.entries) && Unique(other.entries)
    ensures right ==> forall e <- c.entries + other.entries :: e in old(c.entries + other.entries) || fresh(e)
    ensures right ==> forall x <- IdsOf(c.entries) + IdsOf(other.entries) ::
      x in old(IdsOf(c.entries) + IdsOf(other.entries)) || fresh(x)
  {
    hide IdRows, NameRows, ContextRows, Findable, Unique, Cache.Valid, Within, Cache.Unused;
    mine', theirs', right, unused := mine, theirs, true, true;
    ghost var es, more := c.entries + other.entries, Plus(held, Given(op));
    assert allocated(IdsOf(es));
    WithinLess(es, held, es, more);
    match op {
      case AddOp(_, name, value, context) =>
        var e := DoAdd(c, other, name, value, context, held);
        if e != null { mine' := mine + [e]; }
      case DelOp(_, k) =>
        if k < |mine + theirs| {
          var e := (mine + theirs)[k];
          MinusSet(mine, e);
          var ret := c.Del(e, other);
          if ret { mine' := Minus(mine, e); }
          WithinLess(es, held, c.entries + other.entries, held);
        }
      case UpdateOp(_, k, value, name) =>
        if k < |mine| {
          unused := UpdateOwn(c, other, mine[k], value, name, held);
        } else if k < |mine + theirs| {
          right := UpdateForeign(c, other, theirs[k - |mine|], value, name, held);
          if right { WithinLess(c.entries + other.entries, held, c.entries + other.entries, more); }
        }
      case MoveOp(_, k, away) =>
        if k < |mine + theirs| {
          var e := (mine + theirs)[k];
          MinusSet(mine, e);
          var ret := c.Move(if away then other else c, e);
          if ret && away { mine', theirs' := Minus(mine, e), theirs + [e]; }
          WithinLess(es, held, c.entries + other.entries, held);
        }
    }
  }

  /** One call on the cache it names. */
  method OneCall(a: Cache, b: Cache, inA: seq<Entry>, inB: seq<Entry>, op: Op, ghost held: set<IdValue>)
    returns (inA': seq<Entry>, inB': seq<Entry>, right: bool, ghost unused: bool)
    requires a.Together(b) && a.entries == ToSet(inA) && b.entries == ToSet(inB)
    requires Within(a.entries + b.entries, held)
    modifies a, b, a.entries, IdsOf(a.entries), b.entries, IdsOf(b.entries)
    ensures right <==> a.Together(b)
    ensures right <==> !old(if op.second then Misplaces(op, inB, inA) else Misplaces(op, inA, inB))
    ensures unused <==> !old(if op.second then GivesUsed(b, op, inB) else GivesUsed(a, op, inA))
    ensures Given(op).Some? && Given(op).value !in held ==> unused
    ensures !op.UpdateOp? || op.id.None? ==> unused
    ensures right ==> a.entries == ToSet(inA') && b.entries == ToSet(inB')
    ensures right ==> Within(a.entries + b.entries, Plus(held, Given(op)))
    ensures right && unused && old(Unique(a.entries)) && old(Unique(b.entries)) ==>
      Unique(a.entries) && Unique(b.entries)
    ensures right ==> forall e <- a.entries + b.entries :: e in old(a.entries + b.entries) || fresh(e)
    ensures right ==> forall x <- IdsOf(a.entries) + IdsOf(b.entries) ::
      x in old(IdsOf(a.entries) + IdsOf(b.entries)) || fresh(x)
  {
    hide IdRows, NameRows, ContextRows, Findable, Unique, Within, Cache.Valid, Misplaces, GivesUsed, ToSet, IdsOf;
    if op.second {
      assert a.entries + b.entries == b.entries + a.entries;
      assert IdsOf(a.entries) + IdsOf(b.entries) == IdsOf(b.entries) + IdsOf(a.entries);
      inB', inA', right, unused := DoOp(b, a, inB, inA, op, held);
      assert a.entries + b.entries == b.entries + a.entries;
      assert IdsOf(a.entries) + IdsOf(b.entries) == IdsOf(b.entries) + IdsOf(a.entries);
    } else {
      inA', inB', right, unused := DoOp(a, b, inA, inB, op, held);
    }
  }

  lemma {:induction false} Nothing()
    ensures IdsOf({}) == {} && Unique({}) && Within({}, AllGiven([]))
  {
  }

  ghost function AllGiven(ops: seq<Op>): set<IdValue> {
    set i | 0 <= i < |ops| && Given(ops[i]).Some? :: Given(ops[i]).value
  }

  lemma {:induction false} GivenMore(ops: seq<Op>, i: nat)
    requires i < |ops|
    ensures AllGiven(ops[..i + 1]) == Plus(AllGiven(ops[..i]), Given(ops[i]))
    ensures NewIds(ops) && ops[i].UpdateOp? && ops[i].id.Some? ==> ops[i].id.value !in AllGiven(ops[..i])
  {
    assert ops[..i + 1] == ops[..i] + [ops[i]];
  }

  /** A run of calls on two new caches, up to the first update that files an entry in the wrong cache, if
      there is one: only then are the tables wrong. Otherwise every live entry is in exactly one of the caches,
      filed under exactly its current keys; and if each update gave an ID that no other entry of its cache
      had when it was given, full IDs are unique. That is so when it gave one never given before. */
  method Run(idType: IdType, bucket: Bucket, ops: seq<Op>)
    returns (a: Cache, b: Cache, done: nat, right: bool, ghost unused: bool)
    requires BucketOk(idType, bucket)
    ensures (right <==> a.Together(b)) && done <= |ops|
    ensures right ==> done == |ops|
    ensures !right ==> 0 < done && ops[done - 1].UpdateOp?
    ensures right && unused ==> Unique(a.entries) && Unique(b.entries)
    ensures NewIds(ops) ==> unused
  {
    hide IdRows, NameRows, ContextRows, Findable, Unique, IdsOf, Within, AllGiven, NewIds, Cache.Unused;
    a := new Cache(idType, bucket);
    b := new Cache(idType, bucket);
    right, unused, done := true, true, 0;
    Nothing();
    var inA: seq<Entry>, inB: seq<Entry> := [], [];
    assert a.entries + b.entries == {} && ops[..0] == [];
    while done < |ops|
      invariant done <= |ops| && right && fresh(a) && fresh(b) && a.Together(b)
      invariant unused ==> Unique(a.entries) && Unique(b.entries)
      invariant NewIds(ops) ==> unused
      invariant a.entries == ToSet(inA) && b.entries == ToSet(inB)
      invariant Within(a.entries + b.entries, AllGiven(ops[..done]))
      invariant fresh(a.entries + b.entries) && fresh(IdsOf(a.entries) + IdsOf(b.entries))
    {
      ghost var es, ids := a.entries + b.entries, IdsOf(a.entries) + IdsOf(b.entries);
      assert a.entries <= es && b.entries <= es && IdsOf(a.entries) <= ids && IdsOf(b.entries) <= ids;
      GivenMore(ops, done);
      ghost var fine;
      inA, inB, right, fine := OneCall(a, b, inA, inB, ops[done], AllGiven(ops[..done]));
      unused, done := unused && fine, done + 1;
      if !right { return; }
      forall e | e in a.entries + b.entries ensures fresh(e) { assert e in es || fresh(e); }
      forall x | x in IdsOf(a.entries) + IdsOf(b.entries) ensures fresh(x) { assert x in ids || fresh(x); }
    }
  }
}
