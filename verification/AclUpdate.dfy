/** acl_update.c, the update of a file's access control list: a list of entries that
    is searched linearly and behaves as a map from (tag, qualifier) to permissions. */
module AclUpdate {
  import opened AclText
  import opened Sequences

  /** Only named users and groups are told apart by their qualifier. */
  datatype Key = Key(tag: Tag, qual: nat)

  function KeyOf(e: Entry): Key {
    Key(e.tag, if Named(e.tag) then e.qual else 0)
  }

  /** Entries are the same one if they have the same tag and, for a named user or group,
      the same qualifier. */
  lemma {:induction false} KeysExactly(a: Entry, b: Entry)
    ensures KeyOf(a) == KeyOf(b) <==> a.tag == b.tag && (a.tag == User || a.tag == Group ==> a.qual == b.qual)
  {
  }

  ghost predicate Unique(entries: seq<Entry>) {
    forall i, j :: 0 <= i < j < |entries| ==> KeyOf(entries[i]) != KeyOf(entries[j])
  }

  /** The list as a map. */
  function MapOf(entries: seq<Entry>): map<Key, bv8> {
    if entries == [] then map[]
    else
      var k := |entries| - 1;
      MapOf(entries[..k])[KeyOf(entries[k]) := entries[k].perms]
  }

  lemma {:induction false} MapKeys(entries: seq<Entry>, key: Key)
    ensures key in MapOf(entries) <==> exists i :: 0 <= i < |entries| && KeyOf(entries[i]) == key
  {
    if entries == [] {
    } else {
      var k := |entries| - 1;
      MapKeys(entries[..k], key);
      if i :| 0 <= i < k && KeyOf(entries[..k][i]) == key {
        assert KeyOf(entries[i]) == key;
      }
      if i :| 0 <= i < |entries| && KeyOf(entries[i]) == key {
        assert i < k ==> KeyOf(entries[..k][i]) == key;
      }
    }
  }

  lemma {:induction false} MapValue(entries: seq<Entry>, i: nat)
    requires Unique(entries) && i < |entries|
    ensures KeyOf(entries[i]) in MapOf(entries) && MapOf(entries)[KeyOf(entries[i])] == entries[i].perms
  {
    var k := |entries| - 1;
    if i == k {
    } else {
      assert entries[..k][i] == entries[i];
      MapValue(entries[..k], i);
    }
  }

  /** Lists with unique keys are the same map if each entry of one is, by key and
      permissions, in the other. */
  lemma {:induction false} MapIs(entries: seq<Entry>, m: map<Key, bv8>)
    requires Unique(entries)
    requires forall i :: 0 <= i < |entries| ==> KeyOf(entries[i]) in m && m[KeyOf(entries[i])] == entries[i].perms
    requires forall key :: key in m ==> exists i :: 0 <= i < |entries| && KeyOf(entries[i]) == key
    ensures MapOf(entries) == m
  {
    forall key ensures key in MapOf(entries) <==> key in m {
      MapKeys(entries, key);
    }
    forall key | key in m ensures MapOf(entries)[key] == m[key] {
      var i :| 0 <= i < |entries| && KeyOf(entries[i]) == key;
      MapValue(entries, i);
    }
  }

  lemma {:induction false} ReplaceInMap(entries: seq<Entry>, i: nat, perms: bv8)
    requires Unique(entries) && i < |entries|
    ensures Unique(entries[i := entries[i].(perms := perms)])
    ensures MapOf(entries[i := entries[i].(perms := perms)]) == MapOf(entries)[KeyOf(entries[i]) := perms]
  {
    var now := entries[i := entries[i].(perms := perms)];
    var m := MapOf(entries)[KeyOf(entries[i]) := perms];
    forall j | 0 <= j < |now| ensures KeyOf(now[j]) in m && m[KeyOf(now[j])] == now[j].perms {
      MapValue(entries, j);
    }
    forall key | key in m ensures exists j :: 0 <= j < |now| && KeyOf(now[j]) == key {
      MapKeys(entries, key);
      var j :| 0 <= j < |entries| && KeyOf(entries[j]) == key;
      assert KeyOf(now[j]) == key;
    }
    MapIs(now, m);
  }

  lemma {:induction false} DropKeepsUnique(entries: seq<Entry>, i: nat)
    requires Unique(entries) && i < |entries|
    ensures Unique(Removed(entries, i))
    ensures forall j :: 0 <= j < |Removed(entries, i)| ==> KeyOf(Removed(entries, i)[j]) != KeyOf(entries[i])
  {
  }

  lemma {:induction false} DropFromMap(entries: seq<Entry>, i: nat)
    requires Unique(entries) && i < |entries|
    ensures MapOf(Removed(entries, i)) == MapOf(entries) - {KeyOf(entries[i])}
  {
    var k := |entries| - 1;
    var init := entries[..k];
    if i == k {
      DropLast(entries);
    } else {
      assert Unique(init) && init[i] == entries[i];
      DropFromMap(init, i);
      KeepLast(init, Removed(init, i), entries[k], KeyOf(entries[i]));
      RemovedBeforeLast(entries, i);
    }
  }

  lemma {:induction false} DropLast(entries: seq<Entry>)
    requires Unique(entries) && entries != []
    ensures MapOf(Removed(entries, |entries| - 1)) == MapOf(entries) - {KeyOf(entries[|entries| - 1])}
  {
    var k := |entries| - 1;
    assert Removed(entries, k) == entries[..k];
    MapKeys(entries[..k], KeyOf(entries[k]));
  }

  lemma {:induction false} KeepLast(init: seq<Entry>, rest: seq<Entry>, last: Entry, gone: Key)
    requires MapOf(rest) == MapOf(init) - {gone} && gone != KeyOf(last)
    ensures MapOf(rest + [last]) == MapOf(init + [last]) - {gone}
  {
    MapOfAppend(rest, last);
    MapOfAppend(init, last);
    WithoutOther(MapOf(init), gone, KeyOf(last), last.perms);
  }

  lemma {:induction false} WithoutOther(m: map<Key, bv8>, gone: Key, key: Key, perms: bv8)
    requires gone != key
    ensures (m - {gone})[key := perms] == m[key := perms] - {gone}
  {
  }

  lemma {:induction false} MapOfAppend(entries: seq<Entry>, e: Entry)
    ensures MapOf(entries + [e]) == MapOf(entries)[KeyOf(e) := e.perms]
  {
    assert (entries + [e])[..|entries|] == entries;
  }

  lemma {:induction false} AppendToMap(entries: seq<Entry>, e: Entry)
    requires Unique(entries) && KeyOf(e) !in MapOf(entries)
    ensures Unique(entries + [e])
    ensures MapOf(entries + [e]) == MapOf(entries)[KeyOf(e) := e.perms]
  {
    MapKeys(entries, KeyOf(e));
    assert (entries + [e])[..|entries|] == entries;
  }

  /** One requested change on the map. */
  function ApplyToMap(m: map<Key, bv8>, e: Entry, remove: bool): map<Key, bv8> {
    if remove then m - {KeyOf(e)} else m[KeyOf(e) := e.perms & 7]
  }

  function ApplyAllToMap(m: map<Key, bv8>, es: seq<Entry>, remove: bool): map<Key, bv8> {
    if es == [] then m else ApplyToMap(ApplyAllToMap(m, es[..|es| - 1], remove), es[|es| - 1], remove)
  }

  // ----- the mask

  /** The entries whose permissions a mask limits. */
  predicate InClass(tag: Tag) {
    tag == User || tag == GroupObj || tag == Group
  }

  const MASK := Key(Mask, 0)

  function ClassUnion(entries: seq<Entry>): bv8 {
    if entries == [] then 0
    else
      var last := entries[|entries| - 1];
      ClassUnion(entries[..|entries| - 1]) | (if InClass(last.tag) then last.perms else 0)
  }

  /** A named user, the owning group or a named group has this permission. */
  predicate KeyGrants(m: map<Key, bv8>, key: Key, bit: bv8) {
    key in m && key.tag in {User, GroupObj, Group} && m[key] & bit != 0
  }

  predicate EntryGrants(entries: seq<Entry>, i: int, bit: bv8) {
    0 <= i < |entries| && InClass(entries[i].tag) && entries[i].perms & bit != 0
  }

  /** Some key of the class has this permission. */
  ghost predicate Grants(m: map<Key, bv8>, bit: bv8) {
    exists key :: KeyGrants(m, key, bit)
  }

  /** The mask has exactly the permissions that some key of the class has. */
  ghost predicate MaskIsUnion(m: map<Key, bv8>) {
    && MASK in m && m[MASK] < 8
    && (m[MASK] & READ != 0 <==> Grants(m, READ))
    && (m[MASK] & WRITE != 0 <==> Grants(m, WRITE))
    && (m[MASK] & EXECUTE != 0 <==> Grants(m, EXECUTE))
  }

  /** The maps differ at most in the mask. */
  ghost predicate AgreeButMask(a: map<Key, bv8>, b: map<Key, bv8>) {
    && (forall key :: key != MASK ==> (key in a <==> key in b))
    && (forall key :: key != MASK && key in a ==> a[key] == b[key])
  }

  lemma {:induction false} AgreeAfter(a: map<Key, bv8>, b: map<Key, bv8>, e: Entry, remove: bool)
    requires AgreeButMask(a, b)
    ensures forall c :: AgreeButMask(ApplyToMap(b, e, remove), c) ==> AgreeButMask(ApplyToMap(a, e, remove), c)
  {
    var x, y := ApplyToMap(a, e, remove), ApplyToMap(b, e, remove);
    assert AgreeButMask(x, y);
    forall c | AgreeButMask(y, c) ensures AgreeButMask(x, c) {
    }
  }

  lemma {:induction false} OrBits(a: bv8, b: bv8, bit: bv8)
    requires bit == READ || bit == WRITE || bit == EXECUTE
    ensures (a | b) & bit != 0 <==> a & bit != 0 || b & bit != 0
  {
  }

  lemma {:induction false} UnionBit(entries: seq<Entry>, bit: bv8)
    requires bit == READ || bit == WRITE || bit == EXECUTE
    ensures ClassUnion(entries) & bit != 0 <==> exists i :: EntryGrants(entries, i, bit)
  {
    if entries == [] {
    } else {
      var k := |entries| - 1;
      var init, last := entries[..k], entries[k];
      UnionBit(init, bit);
      OrBits(ClassUnion(init), if InClass(last.tag) then last.perms else 0, bit);
      assert forall i :: 0 <= i < k ==> EntryGrants(init, i, bit) == EntryGrants(entries, i, bit);
      assert EntryGrants(entries, k, bit) <==> InClass(last.tag) && last.perms & bit != 0;
    }
  }

  lemma {:induction false} EntryIsKey(entries: seq<Entry>, i: nat, bit: bv8)
    requires Unique(entries) && i < |entries|
    ensures EntryGrants(entries, i, bit) <==> KeyGrants(MapOf(entries), KeyOf(entries[i]), bit)
  {
    MapValue(entries, i);
  }

  lemma {:induction false} GrantsExactly(entries: seq<Entry>, bit: bv8)
    requires Unique(entries)
    ensures Grants(MapOf(entries), bit) <==> exists i :: EntryGrants(entries, i, bit)
  {
    if i :| EntryGrants(entries, i, bit) {
      EntryIsKey(entries, i, bit);
    }
    if key :| KeyGrants(MapOf(entries), key, bit) {
      MapKeys(entries, key);
      var i :| 0 <= i < |entries| && KeyOf(entries[i]) == key;
      EntryIsKey(entries, i, bit);
    }
  }

  /** What the entries grant together, in terms of the map. */
  ghost predicate IsUnion(m: map<Key, bv8>, u: bv8) {
    && (u & READ != 0 <==> Grants(m, READ)) && (u & WRITE != 0 <==> Grants(m, WRITE))
    && (u & EXECUTE != 0 <==> Grants(m, EXECUTE))
  }

  lemma {:induction false} UnionInMap(entries: seq<Entry>, u: bv8)
    requires Unique(entries) && u == ClassUnion(entries)
    ensures IsUnion(MapOf(entries), u & 7)
  {
    UnionBit(entries, READ);
    UnionBit(entries, WRITE);
    UnionBit(entries, EXECUTE);
    GrantsExactly(entries, READ);
    GrantsExactly(entries, WRITE);
    GrantsExactly(entries, EXECUTE);
    LowBits(u);
  }

  lemma {:induction false} LowBits(u: bv8)
    ensures u & 7 < 8 && (u & 7) & READ == u & READ && (u & 7) & WRITE == u & WRITE && (u & 7) & EXECUTE == u & EXECUTE
  {
  }

  lemma {:induction false} KeyGrantsStays(m: map<Key, bv8>, p: bv8, key: Key, bit: bv8)
    ensures KeyGrants(m[MASK := p], key, bit) <==> KeyGrants(m, key, bit)
  {
    assert MASK.tag == Mask && !InClass(MASK.tag);
    if key != MASK {
      assert key in m[MASK := p] <==> key in m;
      assert key in m ==> m[MASK := p][key] == m[key];
    }
  }

  lemma {:induction false} GrantsStays(m: map<Key, bv8>, p: bv8, bit: bv8)
    ensures Grants(m[MASK := p], bit) <==> Grants(m, bit)
  {
    var now := m[MASK := p];
    if key :| KeyGrants(m, key, bit) {
      KeyGrantsStays(m, p, key, bit);
    }
    if key :| KeyGrants(now, key, bit) {
      KeyGrantsStays(m, p, key, bit);
    }
  }

  lemma {:induction false} MaskSet(m: map<Key, bv8>, p: bv8)
    requires IsUnion(m, p) && p < 8
    ensures MaskIsUnion(m[MASK := p]) && AgreeButMask(m, m[MASK := p])
  {
    GrantsStays(m, p, READ);
    GrantsStays(m, p, WRITE);
    GrantsStays(m, p, EXECUTE);
  }

  /** The ACL that acl_get_file returned. */
  class Acl {
    var entries: seq<Entry>

    constructor (entries: seq<Entry>)
      ensures this.entries == entries
    {
      this.entries := entries;
    }

    /** findEntry: the first entry with this tag and, for named users and groups,
        this qualifier; -1 if there is none. */
    method FindEntry(tag: Tag, qual: nat) returns (r: int)
      ensures -1 <= r < |entries|
      ensures r >= 0 ==> KeyOf(entries[r]) == KeyOf(Entry(tag, qual, 0))
      ensures forall j :: 0 <= j < |entries| && (r == -1 || j < r) && entries[j].tag == tag ==>
                (tag == User || tag == Group) && entries[j].qual != qual
      ensures r == -1 <==> KeyOf(Entry(tag, qual, 0)) !in MapOf(entries)
    {
      MapKeys(entries, KeyOf(Entry(tag, qual, 0)));
      var i := 0;
      while i < |entries|
        invariant i <= |entries|
        invariant forall j :: 0 <= j < i ==> KeyOf(entries[j]) != KeyOf(Entry(tag, qual, 0))
      {
        if entries[i].tag == tag {
          if tag == User || tag == Group {
            if entries[i].qual == qual {
              return i;
            }
          } else {
            return i;
          }
        }
        i := i + 1;
      }
      return -1;
    }

    /** setPerms: clear, then add each requested permission. */
    method SetPerms(i: nat, perms: bv8)
      requires i < |entries|
      modifies this
      ensures entries == old(entries)[i := old(entries)[i].(perms := perms & 7)]
    {
      var permset: bv8 := 0;
      if perms & READ != 0 {
        permset := permset | READ;
      }
      if perms & WRITE != 0 {
        permset := permset | WRITE;
      }
      if perms & EXECUTE != 0 {
        permset := permset | EXECUTE;
      }
      assert permset == perms & 7;
      entries := entries[i := entries[i].(perms := permset)];
    }

    /** One pass of the update loop when removing. */
    method Remove(e: Entry)
      requires Unique(entries)
      modifies this
      ensures Unique(entries) && MapOf(entries) == ApplyToMap(old(MapOf(entries)), e, true)
    {
      var entry := FindEntry(e.tag, e.qual);
      if entry != -1 {
        DropFromMap(entries, entry);
        DropKeepsUnique(entries, entry);
        entries := entries[..entry] + entries[entry + 1..];
      }
    }

    /** One pass of the update loop when modifying. */
    method Modify(e: Entry)
      requires Unique(entries)
      modifies this
      ensures Unique(entries) && MapOf(entries) == ApplyToMap(old(MapOf(entries)), e, false)
    {
      var entry := FindOrCreate(e);
      ReplaceInMap(entries, entry, e.perms & 7);
      SetPerms(entry, e.perms);
    }

    method FindOrCreate(e: Entry) returns (entry: nat)
      requires Unique(entries)
      modifies this
      ensures Unique(entries) && entry < |entries| && KeyOf(entries[entry]) == KeyOf(e)
      ensures MapOf(entries)[KeyOf(e) := e.perms & 7] == old(MapOf(entries))[KeyOf(e) := e.perms & 7]
    {
      var found := FindEntry(e.tag, e.qual);
      if found == -1 {
        entry := CreateEntry(e.tag, e.qual);
      } else {
        entry := found;
      }
    }

    /** A new entry with the tag and qualifier and, at first, no permissions. */
    method CreateEntry(tag: Tag, qual: nat) returns (entry: nat)
      requires Unique(entries) && KeyOf(Entry(tag, qual, 0)) !in MapOf(entries)
      modifies this
      ensures Unique(entries) && entry < |entries| && KeyOf(entries[entry]) == KeyOf(Entry(tag, qual, 0))
      ensures MapOf(entries) == old(MapOf(entries))[KeyOf(Entry(tag, qual, 0)) := 0]
    {
      var created := Entry(tag, if tag == User || tag == Group then qual else 0, 0);
      AppendToMap(entries, created);
      entry := |entries|;
      entries := entries + [created];
    }

    method Apply(e: Entry, remove: bool)
      requires Unique(entries)
      modifies this
      ensures Unique(entries) && MapOf(entries) == ApplyToMap(old(MapOf(entries)), e, remove)
    {
      if remove {
        Remove(e);
      } else {
        Modify(e);
      }
    }

    /** The permissions of the entries that a mask limits, put together. */
    method ClassPerms() returns (u: bv8)
      ensures u == ClassUnion(entries)
    {
      u := 0;
      for i := 0 to |entries|
        invariant u == ClassUnion(entries[..i])
      {
        assert entries[..i + 1][..i] == entries[..i];
        if InClass(entries[i].tag) {
          u := u | entries[i].perms;
        }
      }
      assert entries[..|entries|] == entries;
    }

    /** acl_calc_mask: the mask entry, created if need be, gets all permissions that a
        named user, the owning group or a named group has, and no others. */
    method CalcMask()
      requires Unique(entries)
      modifies this
      ensures Unique(entries) && MaskIsUnion(MapOf(entries)) && AgreeButMask(old(MapOf(entries)), MapOf(entries))
    {
      var u := ClassPerms();
      ghost var was := entries;
      UnionInMap(was, u);
      Modify(Entry(Mask, 0, u));
      LowBits(u);
      MaskSet(MapOf(was), u & 7);
    }

    /** One pass of the update loop. */
    method Pass(e: Entry, remove: bool, recalcMask: bool)
      requires Unique(entries)
      modifies this
      ensures Unique(entries)
      ensures !recalcMask ==> MapOf(entries) == ApplyToMap(old(MapOf(entries)), e, remove)
      ensures recalcMask ==> AgreeButMask(ApplyToMap(old(MapOf(entries)), e, remove), MapOf(entries)) && MaskIsUnion(MapOf(entries))
    {
      Apply(e, remove);
      if recalcMask {
        CalcMask();
      }
    }

    /** The update loop: keys stay unique, and the list behaves as the map. With the mask
        recalculated, which is the default, all keys but the mask do, and the mask is
        right after every pass. */
    method ApplyAll(aclist: seq<Entry>, remove: bool, recalcMask: bool)
      requires Unique(entries)
      modifies this
      ensures Unique(entries)
      ensures !recalcMask ==> MapOf(entries) == ApplyAllToMap(old(MapOf(entries)), aclist, remove)
      ensures recalcMask ==> AgreeButMask(ApplyAllToMap(old(MapOf(entries)), aclist, remove), MapOf(entries))
      ensures recalcMask && aclist != [] ==> MaskIsUnion(MapOf(entries))
    {
      for en := 0 to |aclist|
        invariant Unique(entries)
        invariant !recalcMask ==> MapOf(entries) == ApplyAllToMap(old(MapOf(entries)), aclist[..en], remove)
        invariant recalcMask ==> AgreeButMask(ApplyAllToMap(old(MapOf(entries)), aclist[..en], remove), MapOf(entries))
        invariant recalcMask && en > 0 ==> MaskIsUnion(MapOf(entries))
      {
        assert aclist[..en + 1][..en] == aclist[..en];
        if recalcMask {
          AgreeAfter(ApplyAllToMap(old(MapOf(entries)), aclist[..en], remove), MapOf(entries), aclist[en], remove);
        }
        Pass(aclist[en], remove, recalcMask);
      }
      assert aclist[..|aclist|] == aclist;
    }
  }

  /** What the last request for a key was, counting back from `n`; -1 if none. */
  function LastFor(es: seq<Entry>, key: Key, n: nat): (i: int)
    requires n <= |es|
    ensures -1 <= i < n
    ensures i >= 0 ==> KeyOf(es[i]) == key
    ensures forall j :: i < j < n ==> KeyOf(es[j]) != key
  {
    if n == 0 then -1 else if KeyOf(es[n - 1]) == key then n - 1 else LastFor(es, key, n - 1)
  }

  /** After any sequence of modifications each key has exactly the permissions last
      asked for, and keys not asked for are untouched; after any sequence of removals
      exactly the keys not asked for remain, untouched. */
  lemma {:induction false} UpdateLaws(m: map<Key, bv8>, es: seq<Entry>, key: Key)
    ensures var i := LastFor(es, key, |es|);
            var modified := ApplyAllToMap(m, es, false);
            if i == -1 then (key in modified <==> key in m) && (key in m ==> modified[key] == m[key])
            else key in modified && modified[key] == es[i].perms & 7
    ensures var removed := ApplyAllToMap(m, es, true);
            && (key in removed <==> key in m && LastFor(es, key, |es|) == -1)
            && (key in removed ==> removed[key] == m[key])
  {
    if es == [] {
    } else {
      var k := |es| - 1;
      UpdateLaws(m, es[..k], key);
      LastForPrefix(es, key, k);
    }
  }

  lemma {:induction false} LastForPrefix(es: seq<Entry>, key: Key, n: nat)
    requires n < |es|
    ensures LastFor(es[..|es| - 1], key, n) == LastFor(es, key, n)
  {
    if n == 0 {
    } else {
      assert es[..|es| - 1][n - 1] == es[n - 1];
      LastForPrefix(es, key, n - 1);
    }
  }
}
