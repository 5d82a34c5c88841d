/** Grouping of the declared record sets by `[name, type]` (`fetch_records`,
    dsl-tester.rb lines 209-221) and the split of the groups into wildcard
    and literal ones (lines 155-160). A Ruby Hash keeps its keys in
    insertion order; a `Table` is that order plus the key-to-group map. */
module Records {
  import opened Types
  import opened Wildcard

  datatype Table = Table(keys: seq<Key>, groups: map<Key, seq<Rrset>>)

  predicate Distinct(ks: seq<Key>) {
    forall i, j :: 0 <= i < j < |ks| ==> ks[i] != ks[j]
  }

  /** Every listed key has a group. */
  predicate Covers(keys: seq<Key>, groups: map<Key, seq<Rrset>>) {
    forall k :: k in keys ==> k in groups
  }

  /** The keys are listed once each and are exactly the keys of the map. */
  predicate WellFormed(t: Table) {
    Distinct(t.keys)
    && (forall k :: k in t.groups ==> k in t.keys)
    && Covers(t.keys, t.groups)
  }

  /** Every record set of every zone, zone by zone, in declaration order. */
  function Flatten(zones: seq<Zone>): seq<Rrset> {
    if zones == [] then [] else Flatten(zones[..|zones| - 1]) + zones[|zones| - 1].rrsets
  }

  /** The distinct keys of `rs` in order of first occurrence. */
  function KeysOf(rs: seq<Rrset>): (ks: seq<Key>)
    ensures Distinct(ks) && |ks| <= |rs|
    ensures forall k :: k in ks <==> exists r :: r in rs && KeyOf(r) == k
  {
    if rs == [] then []
    else
      var init := rs[..|rs| - 1];
      var last := rs[|rs| - 1];
      assert rs == init + [last];
      var ks := KeysOf(init);
      if KeyOf(last) in ks then ks else ks + [KeyOf(last)]
  }

  /** The record sets of `rs` with key `k`, in their order in `rs`. */
  function GroupOf(rs: seq<Rrset>, k: Key): (g: seq<Rrset>)
    ensures forall r :: r in g <==> r in rs && KeyOf(r) == k
  {
    if rs == [] then []
    else
      var init := rs[..|rs| - 1];
      var last := rs[|rs| - 1];
      assert rs == init + [last];
      GroupOf(init, k) + (if KeyOf(last) == k then [last] else [])
  }

  /** The table `fetch_records` builds from the record sets `rs`: one group
      per distinct key, listed in order of first occurrence, so never more
      groups than record sets. */
  function Grouped(rs: seq<Rrset>): (t: Table)
    ensures forall k :: k in t.groups <==> k in t.keys
    ensures |t.keys| <= |rs| && (t.keys == [] <==> rs == [])
  {
    var ks := KeysOf(rs);
    Table(ks, map k | k in ks :: GroupOf(rs, k))
  }

  /** The grouping splits along concatenation: the records of the earlier
      zones come first in every group. */
  lemma {:induction false} GroupOfAppend(a: seq<Rrset>, b: seq<Rrset>, k: Key)
    ensures GroupOf(a + b, k) == GroupOf(a, k) + GroupOf(b, k)
    decreases |b|
  {
    if b == [] {
      assert a + b == a;
    } else {
      var init := b[..|b| - 1];
      assert a + b == (a + init) + [b[|b| - 1]];
      assert (a + b)[..|a + b| - 1] == a + init;
      GroupOfAppend(a, init, k);
    }
  }

  /** `fetch_records` puts every record set into the group of its own key
      and only there, and every group it creates is non-empty. */
  lemma GroupedPlacesEveryRecord(rs: seq<Rrset>)
    ensures WellFormed(Grouped(rs))
    ensures forall r :: r in rs ==> KeyOf(r) in Grouped(rs).groups && r in Grouped(rs).groups[KeyOf(r)]
    ensures forall k :: k in Grouped(rs).groups ==>
              Grouped(rs).groups[k] != [] && forall r :: r in Grouped(rs).groups[k] ==> KeyOf(r) == k
  {
    var t := Grouped(rs);
    forall k | k in t.groups ensures t.groups[k] != [] {
      var r :| r in rs && KeyOf(r) == k;
      assert r in GroupOf(rs, k);
    }
  }

  /** One step of lines 214-216: `record_list[key] ||= []` then `<< record`. */
  function AddRecord(t: Table, r: Rrset): Table {
    var key := KeyOf(r);
    var t' := if key in t.groups then t else Table(t.keys + [key], t.groups[key := []]);
    t'.(groups := t'.groups[key := t'.groups[key] + [r]])
  }

  lemma GroupOfAbsent(rs: seq<Rrset>, k: Key)
    requires k !in KeysOf(rs)
    ensures GroupOf(rs, k) == []
  {
    if GroupOf(rs, k) != [] {
      assert GroupOf(rs, k)[0] in GroupOf(rs, k);
    }
  }

  lemma GroupedSnoc(rs: seq<Rrset>, r: Rrset)
    ensures Grouped(rs + [r]) == AddRecord(Grouped(rs), r)
  {
    var a, b := Grouped(rs + [r]), AddRecord(Grouped(rs), r);
    KeysOfSnoc(rs, r);
    GroupKeysOfSnoc(rs, r);
    GroupsOfSnoc(rs, r);
    SameEntries(a.groups, b.groups);
  }

  lemma KeysOfSnoc(rs: seq<Rrset>, r: Rrset)
    ensures KeysOf(rs + [r]) == AddRecord(Grouped(rs), r).keys
  {
    var rs' := rs + [r];
    assert rs'[..|rs'| - 1] == rs;
  }

  lemma GroupKeysOfSnoc(rs: seq<Rrset>, r: Rrset)
    ensures Grouped(rs + [r]).groups.Keys == AddRecord(Grouped(rs), r).groups.Keys
  {
    KeysOfSnoc(rs, r);
  }

  lemma GroupsOfSnoc(rs: seq<Rrset>, r: Rrset)
    ensures forall k :: k in Grouped(rs + [r]).groups ==>
              k in AddRecord(Grouped(rs), r).groups && Grouped(rs + [r]).groups[k] == AddRecord(Grouped(rs), r).groups[k]
  {
    forall k | k in Grouped(rs + [r]).groups
      ensures k in AddRecord(Grouped(rs), r).groups && Grouped(rs + [r]).groups[k] == AddRecord(Grouped(rs), r).groups[k]
    {
      GroupAtSnoc(rs, r, k);
    }
  }

  lemma SameEntries<K, V>(a: map<K, V>, b: map<K, V>)
    requires a.Keys == b.Keys && forall k :: k in a ==> a[k] == b[k]
    ensures a == b
  {
  }

  lemma GroupAtSnoc(rs: seq<Rrset>, r: Rrset, k: Key)
    requires k in KeysOf(rs + [r])
    ensures k in AddRecord(Grouped(rs), r).groups
    ensures Grouped(rs + [r]).groups[k] == AddRecord(Grouped(rs), r).groups[k]
  {
    var rs' := rs + [r];
    assert rs'[..|rs'| - 1] == rs;
    assert GroupOf(rs', k) == GroupOf(rs, k) + (if KeyOf(r) == k then [r] else []);
    if KeyOf(r) == k {
      if k !in KeysOf(rs) {
        GroupOfAbsent(rs, k);
      }
    } else {
      assert k in KeysOf(rs);
    }
  }

  lemma PrefixStep(prefix: seq<Rrset>, rs: seq<Rrset>, i: nat)
    requires i < |rs|
    ensures prefix + rs[..i + 1] == (prefix + rs[..i]) + [rs[i]]
  {
    assert rs[..i + 1] == rs[..i] + [rs[i]];
  }

  /** `fetch_records(dsl)`: loops over the zones and their record sets,
      growing the table in place. */
  method FetchRecords(zones: seq<Zone>) returns (t: Table)
    ensures t == Grouped(Flatten(zones)) && WellFormed(t)
  {
    t := Table([], map[]);
    var z := 0;
    while z < |zones|
      invariant 0 <= z <= |zones|
      invariant t == Grouped(Flatten(zones[..z]))
    {
      assert zones[..z + 1][..z] == zones[..z];
      t := AddZone(t, zones[z].rrsets, Flatten(zones[..z]));
      assert Flatten(zones[..z + 1]) == Flatten(zones[..z]) + zones[z].rrsets;
      z := z + 1;
    }
    assert zones[..z] == zones;
    GroupedPlacesEveryRecord(Flatten(zones));
  }

  /** The inner loop (lines 213-217): the record sets of one zone added to
      the table in order. */
  method AddZone(t0: Table, rrsets: seq<Rrset>, ghost prefix: seq<Rrset>) returns (t: Table)
    requires t0 == Grouped(prefix)
    ensures t == Grouped(prefix + rrsets)
  {
    t := t0;
    ghost var done := prefix;
    var i := 0;
    assert prefix + rrsets[..0] == prefix;
    while i < |rrsets|
      invariant 0 <= i <= |rrsets|
      invariant done == prefix + rrsets[..i]
      invariant t == Grouped(done)
    {
      var record := rrsets[i];
      var key := KeyOf(record);
      ghost var before := t;
      if key !in t.groups {
        t := Table(t.keys + [key], t.groups[key := []]);
      }
      t := t.(groups := t.groups[key := t.groups[key] + [record]]);
      assert t == AddRecord(before, record);
      GroupedSnoc(done, record);
      PrefixStep(prefix, rrsets, i);
      done := done + [record];
      i := i + 1;
    }
    assert rrsets[..i] == rrsets;
  }


  /** The keys of `ks` whose name has, or has not, an asterisk. */
  function KeysWhere(ks: seq<Key>, wildcard: bool): (r: seq<Key>)
    ensures |r| <= |ks|
  {
    if ks == [] then []
    else
      var init := ks[..|ks| - 1];
      var last := ks[|ks| - 1];
      assert ks == init + [last];
      KeysWhere(init, wildcard) + (if IsWildcardName(last.name) == wildcard then [last] else [])
  }

  lemma {:induction false} KeysWhereMembers(ks: seq<Key>, wildcard: bool)
    ensures forall k :: k in KeysWhere(ks, wildcard) <==> k in ks && IsWildcardName(k.name) == wildcard
    decreases |ks|
  {
    if ks != [] {
      var init := ks[..|ks| - 1];
      assert ks == init + [ks[|ks| - 1]];
      KeysWhereMembers(init, wildcard);
    }
  }

  /** The part of a table whose key names have, or have not, an asterisk,
      in the table's key order. */
  function Select(t: Table, wildcard: bool): Table {
    Table(KeysWhere(t.keys, wildcard),
          map k | k in t.groups && IsWildcardName(k.name) == wildcard :: t.groups[k])
  }

  lemma {:induction false} KeysWhereDistinct(ks: seq<Key>, wildcard: bool)
    requires Distinct(ks)
    ensures Distinct(KeysWhere(ks, wildcard))
    decreases |ks|
  {
    if ks != [] {
      var init := ks[..|ks| - 1];
      assert Distinct(init);
      assert ks == init + [ks[|ks| - 1]];
      KeysWhereDistinct(init, wildcard);
      KeysWhereMembers(init, wildcard);
    }
  }

  lemma {:induction false} KeysWhereSplit(ks: seq<Key>)
    ensures |KeysWhere(ks, true)| + |KeysWhere(ks, false)| == |ks|
    decreases |ks|
  {
    if ks != [] {
      KeysWhereSplit(ks[..|ks| - 1]);
    }
  }

  /** Lines 158-160: every wildcard key ends up in the wildcard table and
      none stays behind; the two parts have disjoint keys, together hold
      every key of the original with its group unchanged, and count as many
      keys. */
  lemma PartitionSplitsKeys(t: Table)
    requires WellFormed(t)
    ensures var w, l := Select(t, true), Select(t, false);
            WellFormed(w) && WellFormed(l)
            && (forall k :: k in w.groups ==> IsWildcardName(k.name))
            && (forall k :: k in l.groups ==> !IsWildcardName(k.name))
            && (forall k :: k in t.groups <==> k in w.groups || k in l.groups)
            && (forall k :: k in w.groups ==> w.groups[k] == t.groups[k])
            && (forall k :: k in l.groups ==> l.groups[k] == t.groups[k])
            && |w.keys| + |l.keys| == |t.keys|
  {
    KeysWhereDistinct(t.keys, true);
    KeysWhereDistinct(t.keys, false);
    KeysWhereMembers(t.keys, true);
    KeysWhereMembers(t.keys, false);
    KeysWhereSplit(t.keys);
  }

  /** Ruby's `Hash#delete(key)` on a table. */
  function Delete(t: Table, key: Key): Table {
    Table(RemoveKey(t.keys, key), t.groups - {key})
  }

  function RemoveKey(ks: seq<Key>, key: Key): seq<Key> {
    if ks == [] then [] else (if ks[0] == key then [] else [ks[0]]) + RemoveKey(ks[1..], key)
  }

  lemma {:induction false} RemoveKeyAbsent(ks: seq<Key>, key: Key)
    requires key !in ks
    ensures RemoveKey(ks, key) == ks
    decreases |ks|
  {
    if ks != [] { RemoveKeyAbsent(ks[1..], key); }
  }

  lemma RemoveKeyAfter(done: seq<Key>, key: Key, rest: seq<Key>)
    requires key !in done && key !in rest
    ensures RemoveKey(done + ([key] + rest), key) == done + rest
  {
    RemoveKeyAppend(done, [key] + rest, key);
    RemoveKeyAbsent(done, key);
    RemoveKeyAbsent(rest, key);
    assert ([key] + rest)[1..] == rest;
    assert RemoveKey([key] + rest, key) == [] + RemoveKey(rest, key);
    assert [] + rest == rest;
  }

  lemma {:induction false} RemoveKeyAppend(a: seq<Key>, b: seq<Key>, key: Key)
    ensures RemoveKey(a + b, key) == RemoveKey(a, key) + RemoveKey(b, key)
    decreases |a|
  {
    if a == [] {
      assert a + b == b;
    } else {
      assert (a + b)[1..] == a[1..] + b;
      RemoveKeyAppend(a[1..], b, key);
    }
  }

  lemma KeysWhereStep(ks: seq<Key>, i: nat, wildcard: bool)
    requires i < |ks|
    ensures KeysWhere(ks[..i + 1], wildcard)
            == KeysWhere(ks[..i], wildcard) + (if IsWildcardName(ks[i].name) == wildcard then [ks[i]] else [])
  {
    assert ks[..i + 1][..i] == ks[..i];
  }

  lemma SameMaps(m1: map<Key, seq<Rrset>>, m2: map<Key, seq<Rrset>>)
    requires forall k :: k in m1 <==> k in m2
    requires forall k :: k in m1 ==> m1[k] == m2[k]
    ensures m1 == m2
  {
    assert m1.Keys == m2.Keys;
  }

  lemma DropStep(ks: seq<Key>, i: nat)
    requires i < |ks|
    ensures ks[i..] == [ks[i]] + ks[i + 1..]
  {
  }

  lemma Regroup(a: seq<Key>, k: Key, b: seq<Key>)
    ensures a + ([k] + b) == (a + [k]) + b
  {
  }

  /** The key lists the partition loop has built after the first `i` keys. */
  ghost predicate KeyState(t: Table, i: nat, wildKeys: seq<Key>, literalKeys: seq<Key>) {
    i <= |t.keys|
    && wildKeys == KeysWhere(t.keys[..i], true)
    && literalKeys == KeysWhere(t.keys[..i], false) + t.keys[i..]
  }

  /** The groups of both tables are those of `t`, split by whether the key
      has been moved to the wildcard table. */
  ghost predicate GroupState(t: Table, wild: Table, literal: Table) {
    (forall k :: k in wild.groups <==> k in t.groups && k in wild.keys)
    && (forall k :: k in literal.groups <==> k in t.groups && k !in wild.keys)
    && (forall k :: k in wild.groups ==> wild.groups[k] == t.groups[k])
    && (forall k :: k in literal.groups ==> literal.groups[k] == t.groups[k])
  }

  lemma PartitionStart(t: Table)
    requires WellFormed(t)
    ensures KeyState(t, 0, [], t.keys) && GroupState(t, Table([], map[]), t)
  {
    assert t.keys[..0] == [] && t.keys[0..] == t.keys;
  }

  lemma KeyNotElsewhere(ks: seq<Key>, i: nat)
    requires Distinct(ks) && i < |ks|
    ensures ks[i] !in ks[..i] && ks[i] !in ks[i + 1..]
  {
    assert forall j :: 0 <= j < i ==> ks[..i][j] == ks[j];
    assert forall j :: i + 1 <= j < |ks| ==> ks[i + 1..][j - (i + 1)] == ks[j];
  }

  lemma MoveKeys(t: Table, i: nat, wildKeys: seq<Key>, literalKeys: seq<Key>)
    requires WellFormed(t) && i < |t.keys| && KeyState(t, i, wildKeys, literalKeys)
    requires IsWildcardName(t.keys[i].name)
    ensures t.keys[i] !in wildKeys
    ensures KeyState(t, i + 1, wildKeys + [t.keys[i]], RemoveKey(literalKeys, t.keys[i]))
  {
    var keys, key := t.keys, t.keys[i];
    KeysWhereStep(keys, i, true);
    KeysWhereStep(keys, i, false);
    DropStep(keys, i);
    KeyNotElsewhere(keys, i);
    KeysWhereMembers(keys[..i], true);
    KeysWhereMembers(keys[..i], false);
    var lit := KeysWhere(keys[..i], false);
    RemoveKeyAfter(lit, key, keys[i + 1..]);
    assert lit + [] == lit;
  }

  lemma KeepKeys(t: Table, i: nat, wildKeys: seq<Key>, literalKeys: seq<Key>)
    requires WellFormed(t) && i < |t.keys| && KeyState(t, i, wildKeys, literalKeys)
    requires !IsWildcardName(t.keys[i].name)
    ensures KeyState(t, i + 1, wildKeys, literalKeys)
  {
    var keys, key := t.keys, t.keys[i];
    KeysWhereStep(keys, i, true);
    KeysWhereStep(keys, i, false);
    DropStep(keys, i);
    Regroup(KeysWhere(keys[..i], false), key, keys[i + 1..]);
  }

  lemma MoveGroups(t: Table, wild: Table, literal: Table, key: Key)
    requires GroupState(t, wild, literal) && key in t.groups && key !in wild.keys
    ensures key in literal.groups
    ensures GroupState(t, Table(wild.keys + [key], wild.groups[key := literal.groups[key]]), Delete(literal, key))
  {
    var w' := Table(wild.keys + [key], wild.groups[key := literal.groups[key]]);
    forall k | k in w'.groups ensures w'.groups[k] == t.groups[k] {
      if k != key { assert k in wild.groups; }
    }
  }

  /** The wildcard table after the loop has handled the first `i` keys. */
  function WildAfter(t: Table, i: nat): Table
    requires WellFormed(t) && i <= |t.keys|
  {
    if i == 0 then Table([], map[])
    else
      var w, key := WildAfter(t, i - 1), t.keys[i - 1];
      if IsWildcardName(key.name) then Table(w.keys + [key], w.groups[key := t.groups[key]]) else w
  }

  /** The remaining table after the loop has handled the first `i` keys. */
  function LiteralAfter(t: Table, i: nat): Table
    requires WellFormed(t) && i <= |t.keys|
  {
    if i == 0 then t
    else
      var l, key := LiteralAfter(t, i - 1), t.keys[i - 1];
      if IsWildcardName(key.name) then Delete(l, key) else l
  }

  lemma {:induction false} AfterState(t: Table, i: nat)
    requires WellFormed(t) && i <= |t.keys|
    ensures KeyState(t, i, WildAfter(t, i).keys, LiteralAfter(t, i).keys)
    ensures GroupState(t, WildAfter(t, i), LiteralAfter(t, i))
    decreases i
  {
    if i == 0 {
      PartitionStart(t);
    } else {
      AfterState(t, i - 1);
      var w, l := WildAfter(t, i - 1), LiteralAfter(t, i - 1);
      if IsWildcardName(t.keys[i - 1].name) {
        MoveKeys(t, i - 1, w.keys, l.keys);
        MoveGroups(t, w, l, t.keys[i - 1]);
      } else {
        KeepKeys(t, i - 1, w.keys, l.keys);
      }
    }
  }

  /** The key the loop handles next is still in the remaining table, with
      its original group. */
  lemma NextKeyRemains(t: Table, i: nat)
    requires WellFormed(t) && i < |t.keys|
    ensures t.keys[i] in LiteralAfter(t, i).groups
    ensures LiteralAfter(t, i).groups[t.keys[i]] == t.groups[t.keys[i]]
  {
    AfterState(t, i);
    KeyNotElsewhere(t.keys, i);
    KeysWhereMembers(t.keys[..i], true);
  }

  lemma PartitionEnd(t: Table, wild: Table, literal: Table)
    requires WellFormed(t) && KeyState(t, |t.keys|, wild.keys, literal.keys) && GroupState(t, wild, literal)
    ensures wild == Select(t, true) && literal == Select(t, false)
  {
    assert t.keys[..|t.keys|] == t.keys;
    assert t.keys[|t.keys|..] == [];
    assert literal.keys == KeysWhere(t.keys, false);
    var w, l := Select(t, true), Select(t, false);
    KeysWhereMembers(t.keys, true);
    SameMaps(wild.groups, w.groups);
    SameMaps(literal.groups, l.groups);
  }

  /** The loop of lines 158-160 over a snapshot of the keys: each wildcard
      key is deleted from the table and stored in the wildcard table. */
  method Partition(t: Table) returns (wild: Table, literal: Table)
    requires WellFormed(t)
    ensures wild == Select(t, true) && literal == Select(t, false)
    ensures WellFormed(wild) && WellFormed(literal)
  {
    var keys := t.keys;
    wild := Table([], map[]);
    literal := t;
    var i := 0;
    while i < |keys|
      invariant 0 <= i <= |keys|
      invariant wild == WildAfter(t, i) && literal == LiteralAfter(t, i)
    {
      var key := keys[i];
      if IsWildcardName(key.name) {
        NextKeyRemains(t, i);
        var rrs := literal.groups[key];
        literal := Delete(literal, key);
        wild := Table(wild.keys + [key], wild.groups[key := rrs]);
      }
      i := i + 1;
    }
    AfterState(t, i);
    PartitionEnd(t, wild, literal);
    PartitionSplitsKeys(t);
  }
}
