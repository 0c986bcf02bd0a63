/**
 * The keyword arm of the event metadata reader: a 64-bit keyword flag word
 * is resolved to the names of the keyword-table entries whose key overlaps it.
 */
module EventMeta {
  /** The keyword table: key bits to the entry's value map ("Keyword Name", ...). */
  type KeywordTable = map<bv64, map<string, string>>

  /** The low 56 bits of a keyword word; the top 8 are reserved bits. */
  const KEYWORD_MASK: bv64 := 0x00FF_FFFF_FFFF_FFFF

  const KEYWORD_NAME := "Keyword Name"

  /** The gate: names are resolved only when one of the low 56 bits is set. */
  predicate GateOpen(flag: bv64) {
    flag & KEYWORD_MASK > 0
  }

  /** `order` lists the keys of `keys` once each: the map's iteration order. */
  predicate IsListingOf(order: seq<bv64>, keys: set<bv64>) {
    && (forall i, j :: 0 <= i < j < |order| ==> order[i] != order[j])
    && (forall i :: 0 <= i < |order| ==> order[i] in keys)
    && (forall k :: k in keys ==> k in order)
  }

  /** An entry contributes when its key overlaps the whole flag word and it has a name. */
  predicate Contributes(flag: bv64, table: KeywordTable, key: bv64) {
    key in table && flag & key > 0 && KEYWORD_NAME in table[key]
  }

  /** The name one key contributes: none, or its "Keyword Name". */
  function Contribution(flag: bv64, table: KeywordTable, key: bv64): seq<string> {
    if Contributes(flag, table, key) then [table[key][KEYWORD_NAME]] else []
  }

  /** The names contributed by the keys of `order`, in that order. */
  function Collect(flag: bv64, table: KeywordTable, order: seq<bv64>): seq<string> {
    if order == [] then [] else Contribution(flag, table, order[0]) + Collect(flag, table, order[1..])
  }

  /** The keys whose names `Collect` returns, in the same order. */
  function SourceKeys(flag: bv64, table: KeywordTable, order: seq<bv64>): seq<bv64> {
    if order == [] then []
    else (if Contributes(flag, table, order[0]) then [order[0]] else []) + SourceKeys(flag, table, order[1..])
  }

  /** The names the keyword arm pushes for `flag`, visiting the table in `order`. */
  function KeywordNames(flag: bv64, table: KeywordTable, order: seq<bv64>): seq<string> {
    if GateOpen(flag) then Collect(flag, table, order) else []
  }

  /**
   * The `EventMetadataEventKeyword` arm: when the low 56 bits of the flag are
   * not all clear, walk the keyword table and push the "Keyword Name" of every
   * entry whose key shares a bit with the (unmasked) flag.
   */
  method ResolveKeywords(flag: bv64, table: KeywordTable, order: seq<bv64>) returns (names: seq<string>)
    requires IsListingOf(order, table.Keys)
    ensures names == KeywordNames(flag, table, order)
  {
    names := [];
    if flag & KEYWORD_MASK > 0 {
      assert forall i :: 0 <= i < |order| ==> order[i] in table;
      var i := 0;
      while i < |order|
        invariant 0 <= i <= |order|
        invariant names == Collect(flag, table, order[..i])
      {
        var key := order[i];
        var valueMap := table[key];
        ghost var visited := names;
        if flag & key > 0 {
          if KEYWORD_NAME in valueMap {
            names := names + [valueMap[KEYWORD_NAME]];
          }
        }
        assert names == visited + Contribution(flag, table, key);
        CollectStep(flag, table, order, i);
        i := i + 1;
      }
      assert order[..i] == order;
    }
  }

  /** One more visited key adds exactly its contribution. */
  lemma CollectStep(flag: bv64, table: KeywordTable, order: seq<bv64>, i: nat)
    requires i < |order|
    ensures Collect(flag, table, order[..i + 1]) == Collect(flag, table, order[..i]) + Contribution(flag, table, order[i])
  {
    assert order[..i + 1] == order[..i] + [order[i]];
    CollectAppend(flag, table, order[..i], [order[i]]);
    assert Collect(flag, table, [order[i]]) == Contribution(flag, table, order[i]) + Collect(flag, table, []);
  }

  lemma {:induction false} CollectAppend(flag: bv64, table: KeywordTable, a: seq<bv64>, b: seq<bv64>)
    ensures Collect(flag, table, a + b) == Collect(flag, table, a) + Collect(flag, table, b)
  {
    if a == [] {
      assert a + b == b;
    } else {
      assert (a + b)[0] == a[0];
      assert (a + b)[1..] == a[1..] + b;
      CollectAppend(flag, table, a[1..], b);
    }
  }

  /** A flag with none of the low 56 bits set, 0 included, yields no names. */
  lemma ClosedGateYieldsNothing(flag: bv64, table: KeywordTable, order: seq<bv64>)
    requires flag & KEYWORD_MASK == 0
    ensures KeywordNames(flag, table, order) == []
  {
  }

  /** A name is collected exactly when some listed entry contributes it. */
  lemma {:induction false} CollectExactly(flag: bv64, table: KeywordTable, order: seq<bv64>, name: string)
    ensures name in Collect(flag, table, order) <==>
              exists k :: k in order && Contributes(flag, table, k) && table[k][KEYWORD_NAME] == name
  {
    if order != [] {
      CollectExactly(flag, table, order[1..], name);
      var k := order[0];
      if Contributes(flag, table, k) && table[k][KEYWORD_NAME] == name {
        assert name in Collect(flag, table, order);
      }
      if exists k' :: k' in order[1..] && Contributes(flag, table, k') && table[k'][KEYWORD_NAME] == name {
        var k' :| k' in order[1..] && Contributes(flag, table, k') && table[k'][KEYWORD_NAME] == name;
        assert k' in order;
      }
    }
  }

  /**
   * Once the gate is open, a name is returned iff some table entry with that
   * name has a key overlapping the flag; otherwise nothing is returned.
   */
  lemma KeywordNamesExactly(flag: bv64, table: KeywordTable, order: seq<bv64>, name: string)
    requires IsListingOf(order, table.Keys)
    ensures name in KeywordNames(flag, table, order) <==>
              GateOpen(flag) && exists k :: k in table && flag & k > 0 && KEYWORD_NAME in table[k] && table[k][KEYWORD_NAME] == name
  {
    CollectExactly(flag, table, order, name);
    if GateOpen(flag) && exists k :: k in table && flag & k > 0 && KEYWORD_NAME in table[k] && table[k][KEYWORD_NAME] == name {
      var k :| k in table && flag & k > 0 && KEYWORD_NAME in table[k] && table[k][KEYWORD_NAME] == name;
      assert k in order && Contributes(flag, table, k);
    }
  }

  /**
   * The per-key test uses the unmasked flag: once the low bits open the gate,
   * an entry whose key shares only top-8 bits with the flag is still named.
   */
  lemma TopBitsStillMatch(flag: bv64, table: KeywordTable, order: seq<bv64>, key: bv64)
    requires IsListingOf(order, table.Keys)
    requires GateOpen(flag)
    requires key in table && KEYWORD_NAME in table[key]
    requires key & KEYWORD_MASK == 0 && flag & key > 0
    ensures table[key][KEYWORD_NAME] in KeywordNames(flag, table, order)
  {
    KeywordNamesExactly(flag, table, order, table[key][KEYWORD_NAME]);
  }

  /** Each returned name is the "Keyword Name" of its own distinct, overlapping table entry. */
  lemma {:induction false} NamesComeFromDistinctEntries(flag: bv64, table: KeywordTable, order: seq<bv64>)
    requires forall i, j :: 0 <= i < j < |order| ==> order[i] != order[j]
    ensures var src := SourceKeys(flag, table, order);
            && |src| == |Collect(flag, table, order)|
            && (forall i :: 0 <= i < |src| ==>
                  src[i] in order && Contributes(flag, table, src[i])
                  && Collect(flag, table, order)[i] == table[src[i]][KEYWORD_NAME])
            && (forall i, j :: 0 <= i < j < |src| ==> src[i] != src[j])
  {
    if order != [] {
      var rest := order[1..];
      assert forall i, j :: 0 <= i < j < |rest| ==> rest[i] != rest[j] by {
        forall i, j | 0 <= i < j < |rest| ensures rest[i] != rest[j] {
          assert rest[i] == order[i + 1] && rest[j] == order[j + 1];
        }
      }
      NamesComeFromDistinctEntries(flag, table, rest);
      var src := SourceKeys(flag, table, order);
      var srcRest := SourceKeys(flag, table, rest);
      var names := Collect(flag, table, order);
      var namesRest := Collect(flag, table, rest);
      assert forall x :: x in rest ==> x != order[0] by {
        forall x | x in rest ensures x != order[0] {
          var i :| 0 <= i < |rest| && rest[i] == x;
          assert order[i + 1] == x;
        }
      }
      if Contributes(flag, table, order[0]) {
        assert src == [order[0]] + srcRest;
        assert names == [table[order[0]][KEYWORD_NAME]] + namesRest;
        forall i | 0 < i < |src| ensures src[i] in order && src[i] != order[0] {
          assert src[i] == srcRest[i - 1];
        }
      } else {
        assert src == srcRest;
        assert names == namesRest;
      }
    }
  }

  /** The names' multiset does not depend on the table's iteration order. */
  lemma {:induction false} OrderIndependent(flag: bv64, table: KeywordTable, o1: seq<bv64>, o2: seq<bv64>, keys: set<bv64>)
    requires IsListingOf(o1, keys) && IsListingOf(o2, keys)
    ensures multiset(Collect(flag, table, o1)) == multiset(Collect(flag, table, o2))
    decreases |o1|
  {
    if o1 == [] {
      assert forall x :: x in o2 ==> x in keys;
    } else {
      var k := o1[0];
      assert k in o2;
      var j :| 0 <= j < |o2| && o2[j] == k;
      var rest2 := o2[..j] + o2[j + 1..];
      CollectWithout(flag, table, o2, j);
      var keys' := keys - {k};
      ListingWithout(o1, 0, keys);
      assert o1[..0] + o1[1..] == o1[1..];
      ListingWithout(o2, j, keys);
      OrderIndependent(flag, table, o1[1..], rest2, keys');
    }
  }

  /** Dropping the key at position j of a listing lists the other keys. */
  lemma ListingWithout(order: seq<bv64>, j: nat, keys: set<bv64>)
    requires IsListingOf(order, keys) && j < |order|
    ensures IsListingOf(order[..j] + order[j + 1..], keys - {order[j]})
  {
    var rest := order[..j] + order[j + 1..];
    forall i | 0 <= i < |rest| ensures rest[i] == order[if i < j then i else i + 1] {
    }
    forall x | x in keys - {order[j]} ensures x in rest {
      var i :| 0 <= i < |order| && order[i] == x;
      if i < j { assert rest[i] == x; } else { assert rest[i - 1] == x; }
    }
  }

  /** The names of a listing are those of its key at position j plus those of the rest. */
  lemma CollectWithout(flag: bv64, table: KeywordTable, order: seq<bv64>, j: nat)
    requires j < |order|
    ensures multiset(Collect(flag, table, order)) ==
              multiset(Contribution(flag, table, order[j])) + multiset(Collect(flag, table, order[..j] + order[j + 1..]))
  {
    assert order == order[..j] + [order[j]] + order[j + 1..];
    CollectAppend(flag, table, order[..j] + [order[j]], order[j + 1..]);
    CollectAppend(flag, table, order[..j], [order[j]]);
    CollectAppend(flag, table, order[..j], order[j + 1..]);
    assert Collect(flag, table, [order[j]]) == Contribution(flag, table, order[j]) + Collect(flag, table, []);
  }
}
