/** The duplicate resolver. Duplicate merge keys of either table are only reported;
    the secondary table is then collapsed so that each key keeps its last record, and
    that collapsed table is the lookup the merge consults. */
module Duplicates {
  import opened Values

  /** A secondary record with its merge key (a row of the key-indexed table). */
  type Entry = (string, Record)

  function KeysOf(s: seq<Entry>): seq<string> {
    seq(|s|, i requires 0 <= i < |s| => s[i].0)
  }

  function KeySet(s: seq<Entry>): set<string> {
    set i | 0 <= i < |s| :: s[i].0
  }

  /** The keys that occur more than once, each reported once. */
  function DuplicateKeys(keys: seq<string>): (d: set<string>)
    ensures forall k :: k in d <==> exists i, j :: 0 <= i < j < |keys| && keys[i] == k && keys[j] == k
    decreases |keys|
  {
    if keys == [] then {}
    else
      var rest := DuplicateKeys(keys[1..]);
      assert forall i, j :: 1 <= i < j < |keys| ==> keys[i] == keys[1..][i - 1] && keys[j] == keys[1..][j - 1];
      if keys[0] in keys[1..] then {keys[0]} + rest else rest
  }

  /** Entry `i` is the last one with its key. */
  predicate IsLast(s: seq<Entry>, i: int)
    requires 0 <= i < |s|
  {
    forall j :: i < j < |s| ==> s[j].0 != s[i].0
  }

  predicate DistinctKeys(s: seq<Entry>) {
    forall i, j :: 0 <= i < j < |s| ==> s[i].0 != s[j].0
  }

  /** Drops every entry whose key occurs again later, keeping the others in order. */
  function LastWins(s: seq<Entry>): seq<Entry>
    decreases |s|
  {
    if s == [] then []
    else if s[0].0 in KeySet(s[1..]) then LastWins(s[1..])
    else [s[0]] + LastWins(s[1..])
  }

  /** The lookup from key to record: each entry overrides the earlier ones with its key. */
  function Lookup(s: seq<Entry>): (m: map<string, Record>)
    ensures m.Keys == KeySet(s)
    decreases |s|
  {
    if s == [] then map[]
    else
      var prev := s[..|s| - 1];
      assert KeySet(s) == KeySet(prev) + {s[|s| - 1].0} by {
        assert forall i :: 0 <= i < |s| - 1 ==> s[i] == prev[i];
      }
      Lookup(prev)[s[|s| - 1].0 := s[|s| - 1].1]
  }

  lemma KeySetTail(s: seq<Entry>)
    requires s != []
    ensures KeySet(s) == {s[0].0} + KeySet(s[1..])
  {
    assert forall i :: 1 <= i < |s| ==> s[i] == s[1..][i - 1];
  }

  lemma {:induction false} LastWinsKeys(s: seq<Entry>)
    ensures KeySet(LastWins(s)) == KeySet(s)
    decreases |s|
  {
    if s != [] {
      LastWinsKeys(s[1..]);
      KeySetTail(s);
      if s[0].0 !in KeySet(s[1..]) {
        KeySetTail(LastWins(s));
      }
    }
  }

  lemma {:induction false} LastWinsDistinct(s: seq<Entry>)
    ensures DistinctKeys(LastWins(s))
    decreases |s|
  {
    if s != [] && s[0].0 !in KeySet(s[1..]) {
      var t := LastWins(s[1..]);
      LastWinsDistinct(s[1..]);
      LastWinsKeys(s[1..]);
      forall m | 0 <= m < |t| ensures t[m].0 != s[0].0 {
        assert t[m].0 in KeySet(t);
      }
    } else if s != [] {
      LastWinsDistinct(s[1..]);
    }
  }

  lemma {:induction false} LastWinsKeepsLast(s: seq<Entry>)
    ensures forall i :: 0 <= i < |s| && IsLast(s, i) ==> s[i] in LastWins(s)
    decreases |s|
  {
    if s != [] {
      var t := s[1..];
      LastWinsKeepsLast(t);
      forall i | 0 <= i < |s| && IsLast(s, i) ensures s[i] in LastWins(s) {
        if i == 0 {
          assert s[0].0 !in KeySet(t) by {
            forall j | 0 <= j < |t| ensures t[j].0 != s[0].0 {
              assert t[j] == s[j + 1];
            }
          }
        } else {
          assert s[i] == t[i - 1];
          assert IsLast(t, i - 1);
        }
      }
    }
  }

  /** A last entry of the tail is a last entry of the whole sequence. */
  lemma LastOfTail(s: seq<Entry>, i: int)
    requires s != [] && 0 <= i < |s| - 1 && IsLast(s[1..], i)
    ensures IsLast(s, i + 1) && s[i + 1] == s[1..][i]
  {
    var t := s[1..];
    forall j | i + 1 < j < |s| ensures s[j].0 != s[i + 1].0 {
      assert s[j] == t[j - 1];
    }
  }

  /** The first entry is last when its key does not occur again. */
  lemma FirstIsLast(s: seq<Entry>)
    requires s != [] && s[0].0 !in KeySet(s[1..])
    ensures IsLast(s, 0)
  {
    forall j | 0 < j < |s| ensures s[j].0 != s[0].0 {
      assert s[j] == s[1..][j - 1];
    }
  }

  /** `e` is an entry of `s` that is the last one with its key. */
  predicate IsLastEntry(s: seq<Entry>, e: Entry) {
    exists i :: 0 <= i < |s| && IsLast(s, i) && s[i] == e
  }

  lemma IsLastEntryTail(s: seq<Entry>, e: Entry)
    requires s != [] && IsLastEntry(s[1..], e)
    ensures IsLastEntry(s, e)
  {
    var i :| 0 <= i < |s[1..]| && IsLast(s[1..], i) && s[1..][i] == e;
    LastOfTail(s, i);
  }

  lemma {:induction false} LastWinsKeptAreLast(s: seq<Entry>)
    ensures forall m :: 0 <= m < |LastWins(s)| ==> IsLastEntry(s, LastWins(s)[m])
    decreases |s|
  {
    if s != [] {
      var t := s[1..];
      var r := LastWins(s);
      LastWinsKeptAreLast(t);
      forall m | 0 <= m < |r| ensures IsLastEntry(s, r[m]) {
        if s[0].0 !in KeySet(t) && m == 0 {
          FirstIsLast(s);
          assert s[0] == r[0];
        } else {
          var m' := if s[0].0 in KeySet(t) then m else m - 1;
          assert r[m] == LastWins(t)[m'];
          IsLastEntryTail(s, r[m]);
        }
      }
    } else {
      assert LastWins(s) == [];
    }
  }

  /** The collapse only deletes entries: the kept ones stay in the secondary order. */
  lemma {:induction false} LastWinsInOrder(s: seq<Entry>)
    ensures Subseq(LastWins(s), s)
    decreases |s|
  {
    if s != [] {
      LastWinsInOrder(s[1..]);
      var r := LastWins(s);
      if s[0].0 in KeySet(s[1..]) {
        assert r == LastWins(s[1..]);
        if r != [] {
          assert Subseq(r, s[1..]);
        }
      } else {
        assert r == [s[0]] + LastWins(s[1..]);
        assert r[0] == s[0] && r[1..] == LastWins(s[1..]);
      }
    }
  }

  /** After the collapse every key of the secondary table is still present, each key
      occurs exactly once, every kept entry is the last entry with its key, and every
      last entry is kept. */
  lemma LastWinsSpec(s: seq<Entry>)
    ensures KeySet(LastWins(s)) == KeySet(s)
    ensures DistinctKeys(LastWins(s))
    ensures forall m :: 0 <= m < |LastWins(s)| ==>
              exists i :: 0 <= i < |s| && IsLast(s, i) && s[i] == LastWins(s)[m]
    ensures forall i :: 0 <= i < |s| && IsLast(s, i) ==> s[i] in LastWins(s)
    ensures Subseq(LastWins(s), s)
  {
    LastWinsInOrder(s);
    LastWinsKeys(s);
    LastWinsDistinct(s);
    LastWinsKeptAreLast(s);
    LastWinsKeepsLast(s);
  }

  /** The lookup answers every key with its last record. */
  lemma {:induction false} LookupLast(s: seq<Entry>, i: int)
    requires 0 <= i < |s| && IsLast(s, i)
    ensures s[i].0 in Lookup(s) && Lookup(s)[s[i].0] == s[i].1
    decreases |s|
  {
    if i < |s| - 1 {
      var prev := s[..|s| - 1];
      assert prev[i] == s[i];
      assert IsLast(prev, i);
      LookupLast(prev, i);
    }
  }

  /** In a table whose keys are distinct, the lookup answers each key with its entry. */
  lemma LookupDistinct(s: seq<Entry>, m: int)
    requires DistinctKeys(s) && 0 <= m < |s|
    ensures s[m].0 in Lookup(s) && Lookup(s)[s[m].0] == s[m].1
  {
    LookupLast(s, m);
  }

  /** Consulting the collapsed table is the same as consulting the lookup of the whole
      secondary table: each key gives its last record. */
  lemma LookupAfterCollapse(s: seq<Entry>)
    ensures Lookup(LastWins(s)) == Lookup(s)
  {
    var r := LastWins(s);
    LastWinsKeys(s);
    forall k | k in Lookup(r)
      ensures Lookup(r)[k] == Lookup(s)[k]
    {
      CollapsedLookupAt(s, k);
    }
  }

  lemma CollapsedLookupAt(s: seq<Entry>, k: string)
    requires k in KeySet(LastWins(s))
    ensures k in Lookup(s) && Lookup(LastWins(s))[k] == Lookup(s)[k]
  {
    var r := LastWins(s);
    LastWinsKeys(s);
    LastWinsDistinct(s);
    LastWinsKeptAreLast(s);
    var m :| 0 <= m < |r| && r[m].0 == k;
    LookupDistinct(r, m);
    assert IsLastEntry(s, r[m]);
    var i :| 0 <= i < |s| && IsLast(s, i) && s[i] == r[m];
    LookupLast(s, i);
  }

  /** For the secondary records [A(k), B(k)] the collapsed lookup gives B for k. */
  lemma LastWinsExample(k: string, a: Record, b: Record)
    ensures LastWins([(k, a), (k, b)]) == [(k, b)]
    ensures Lookup(LastWins([(k, a), (k, b)]))[k] == b
  {
    assert [(k, b)][0].0 == k;
    assert k in KeySet([(k, b)]);
    assert [(k, a), (k, b)][1..] == [(k, b)];
    assert LastWins([(k, b)]) == [(k, b)];
  }

  /** The collapse changes the secondary table exactly when it has duplicate keys, so
      collapsing only when duplicates were found, or always, is the same. */
  lemma CollapseIffDuplicates(s: seq<Entry>)
    ensures LastWins(s) == s <==> DuplicateKeys(KeysOf(s)) == {}
  {
    var keys := KeysOf(s);
    LastWinsSpec(s);
    if DuplicateKeys(keys) == {} {
      NoDuplicatesKept(s);
    } else {
      var k :| k in DuplicateKeys(keys);
      var i, j :| 0 <= i < j < |keys| && keys[i] == k && keys[j] == k;
      assert s[i].0 == s[j].0;
    }
  }

  lemma {:induction false} NoDuplicatesKept(s: seq<Entry>)
    requires DuplicateKeys(KeysOf(s)) == {}
    ensures LastWins(s) == s
    decreases |s|
  {
    if s != [] {
      var keys := KeysOf(s);
      assert KeysOf(s[1..]) == keys[1..];
      assert s[0].0 !in KeySet(s[1..]) by {
        forall j | 0 <= j < |s[1..]| ensures s[1..][j].0 != keys[0] {
          assert s[1..][j].0 == keys[j + 1];
        }
      }
      NoDuplicatesKept(s[1..]);
    }
  }
}
