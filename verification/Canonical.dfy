/** The canonical serializer `stable`: object keys are printed in order of their code units. */
module Canonical {
  import opened JsText
  import opened Json

  // ----- ordering members by key

  predicate Below(a: JsString, b: JsString) {
    b != [] && (a == [] || a[0] < b[0] || (a[0] == b[0] && Below(a[1..], b[1..])))
  }

  function InsertMember<V>(m: Member<V>, ms: seq<Member<V>>): seq<Member<V>> {
    if ms == [] || Below(m.key, ms[0].key) then [m] + ms else [ms[0]] + InsertMember(m, ms[1..])
  }

  function SortByKey<V>(ms: seq<Member<V>>): seq<Member<V>> {
    if ms == [] then [] else InsertMember(ms[0], SortByKey(ms[1..]))
  }

  // ----- the serializer

  const COMMA: CodeUnit := 44

  function Label(m: Member<JsString>): JsString { Quote(m.key) + [58] + m.value }

  function Labels(ms: seq<Member<JsString>>): seq<JsString> {
    seq(|ms|, i requires 0 <= i < |ms| => Label(ms[i]))
  }

  function Stable(v: Json): JsString {
    match v
    case Null => [110, 117, 108, 108]
    case Bool(b) => if b then [116, 114, 117, 101] else [102, 97, 108, 115, 101]
    case Num(printed) => printed
    case Str(s) => Quote(s)
    case Arr(items) => [91] + Join(StableItems(items), COMMA) + [93]
    case Obj(ms) => [123] + Join(Labels(SortByKey(StableMembers(ms))), COMMA) + [125]
  }

  function StableItems(items: seq<Json>): (r: seq<JsString>)
    ensures |r| == |items|
  {
    if items == [] then [] else [Stable(items[0])] + StableItems(items[1..])
  }

  function StableMembers(ms: seq<Member<Json>>): seq<Member<JsString>> {
    if ms == [] then [] else [Member(ms[0].key, Stable(ms[0].value))] + StableMembers(ms[1..])
  }

  // ----- equality of values as trees, objects taken as maps

  ghost predicate Same(v: Json, w: Json) {
    match (v, w)
    case (Arr(xs), Arr(ys)) => |xs| == |ys| && forall i | 0 <= i < |xs| :: Same(xs[i], ys[i])
    case (Obj(ms), Obj(ns)) =>
      && (forall i | 0 <= i < |ms| :: HasSame(ms[i], ns))
      && (forall j | 0 <= j < |ns| :: HasKey(ns[j].key, ms))
    case _ => v == w
  }

  ghost predicate HasSame(m: Member<Json>, ns: seq<Member<Json>>) {
    exists j | 0 <= j < |ns| :: ns[j].key == m.key && Same(m.value, ns[j].value)
  }

  ghost predicate HasKey(k: JsString, ms: seq<Member<Json>>) {
    exists i | 0 <= i < |ms| :: ms[i].key == k
  }

  // ----- the order is strict and total

  lemma {:induction false} BelowIrreflexive(a: JsString)
    ensures !Below(a, a)
    decreases |a|
  {
    if a != [] { BelowIrreflexive(a[1..]); }
  }

  lemma {:induction false} BelowTotal(a: JsString, b: JsString)
    ensures a == b || Below(a, b) || Below(b, a)
    ensures !(Below(a, b) && Below(b, a))
    ensures Below(a, b) ==> a != b
    decreases |a|
  {
    BelowIrreflexive(a);
    if a != [] && b != [] {
      BelowTotal(a[1..], b[1..]);
      if a[0] == b[0] && a[1..] == b[1..] { assert a == [a[0]] + a[1..] && b == [b[0]] + b[1..]; }
    }
  }

  lemma {:induction false} BelowTransitive(a: JsString, b: JsString, c: JsString)
    requires Below(a, b) && Below(b, c)
    ensures Below(a, c)
    decreases |a|
  {
    if a != [] && a[0] == b[0] == c[0] { BelowTransitive(a[1..], b[1..], c[1..]); }
  }

  /** Alike up to `k`, where `a` ends or has the smaller unit. */
  predicate PartsAt(a: JsString, b: JsString, k: int) {
    && 0 <= k <= |a| && k <= |b| && (forall i | 0 <= i < k :: a[i] == b[i])
    && (if k == |a| then k < |b| else k < |b| && a[k] < b[k])
  }

  /** In the order of code units. */
  ghost predicate Precedes(a: JsString, b: JsString) { exists k :: PartsAt(a, b, k) }

  lemma {:induction false} BelowPrecedes(a: JsString, b: JsString)
    ensures Below(a, b) <==> Precedes(a, b)
    decreases |a|
  {
    if a == [] || b == [] || a[0] != b[0] {
      PartsAtOnce(a, b);
    } else {
      BelowPrecedes(a[1..], b[1..]);
      if k :| PartsAt(a[1..], b[1..], k) { assert PartsAt(a, b, k + 1); }
      if k :| PartsAt(a, b, k) { assert PartsAt(a[1..], b[1..], k - 1); }
    }
  }

  lemma PartsAtOnce(a: JsString, b: JsString)
    requires a == [] || b == [] || a[0] != b[0]
    ensures Precedes(a, b) <==> PartsAt(a, b, 0)
    ensures Below(a, b) <==> PartsAt(a, b, 0)
  {
  }

  /** Keys are printed in the order of their code units: of two that differ, the one with the smaller first unit that
      differs comes first, and a prefix comes before what it begins. */
  lemma SortedKeysInOrder<V>(ms: seq<Member<V>>, i: nat, j: nat)
    requires DistinctKeys(ms) && i < j < |SortByKey(ms)|
    ensures Precedes(SortByKey(ms)[i].key, SortByKey(ms)[j].key)
  {
    SortAscending(ms);
    BelowPrecedes(SortByKey(ms)[i].key, SortByKey(ms)[j].key);
  }

  ghost predicate Ascending<V>(ms: seq<Member<V>>) {
    forall i, j | 0 <= i < j < |ms| :: Below(ms[i].key, ms[j].key)
  }

  lemma {:induction false} InsertMemberContents<V>(m: Member<V>, ms: seq<Member<V>>, x: Member<V>)
    ensures x in InsertMember(m, ms) <==> x == m || x in ms
    decreases |ms|
  {
    if ms != [] && !Below(m.key, ms[0].key) {
      InsertMemberContents(m, ms[1..], x);
      assert ms == [ms[0]] + ms[1..];
    }
  }

  lemma {:induction false} InsertMemberAscending<V>(m: Member<V>, ms: seq<Member<V>>)
    requires Ascending(ms) && forall i | 0 <= i < |ms| :: ms[i].key != m.key
    ensures Ascending(InsertMember(m, ms))
    decreases |ms|
  {
    if ms == [] {
    } else if Below(m.key, ms[0].key) {
      forall i | 0 <= i < |ms| ensures Below(m.key, ms[i].key) {
        if i > 0 { BelowTransitive(m.key, ms[0].key, ms[i].key); }
      }
    } else {
      var r := InsertMember(m, ms[1..]);
      InsertMemberAscending(m, ms[1..]);
      BelowTotal(m.key, ms[0].key);
      forall i | 0 <= i < |r| ensures Below(ms[0].key, r[i].key) {
        InsertMemberContents(m, ms[1..], r[i]);
      }
    }
  }

  /** Sorting keeps exactly the members it is given. */
  lemma {:induction false} SortContents<V>(ms: seq<Member<V>>, x: Member<V>)
    ensures x in SortByKey(ms) <==> x in ms
    decreases |ms|
  {
    if ms != [] {
      SortContents(ms[1..], x);
      InsertMemberContents(ms[0], SortByKey(ms[1..]), x);
      assert ms == [ms[0]] + ms[1..];
    }
  }

  /** Members with distinct keys come out in ascending order. */
  lemma {:induction false} SortAscending<V>(ms: seq<Member<V>>)
    requires DistinctKeys(ms)
    ensures Ascending(SortByKey(ms))
    decreases |ms|
  {
    if ms != [] {
      var rest := SortByKey(ms[1..]);
      SortAscending(ms[1..]);
      forall i | 0 <= i < |rest| ensures rest[i].key != ms[0].key {
        SortContents(ms[1..], rest[i]);
      }
      InsertMemberAscending(ms[0], rest);
    }
  }

  /** An ascending sequence is determined by what it contains. */
  lemma {:induction false} AscendingUnique<V>(a: seq<Member<V>>, b: seq<Member<V>>)
    requires Ascending(a) && Ascending(b)
    requires forall i | 0 <= i < |a| :: a[i] in b
    requires forall j | 0 <= j < |b| :: b[j] in a
    ensures a == b
    decreases |a|
  {
    hide Below;
    NonemptyIn(a, b);
    NonemptyIn(b, a);
    if a != [] && b != [] {
      SameFirst(a, b);
      RestIn(a, b);
      RestIn(b, a);
      AscendingUnique(a[1..], b[1..]);
      SplitAt(a, 1);
      SplitAt(b, 1);
    }
  }

  lemma NonemptyIn<V>(a: seq<V>, b: seq<V>)
    requires forall i | 0 <= i < |a| :: a[i] in b
    ensures a != [] ==> b != []
  {
    if a != [] { assert a[0] in b; }
  }

  lemma SameFirst<V>(a: seq<Member<V>>, b: seq<Member<V>>)
    requires Ascending(a) && Ascending(b) && a != [] && b != []
    requires a[0] in b && b[0] in a
    ensures a[0] == b[0]
  {
    var j :| 0 <= j < |b| && b[j] == a[0];
    var i :| 0 <= i < |a| && a[i] == b[0];
    if i > 0 && j > 0 { BelowTotal(a[0].key, b[0].key); }
  }

  lemma RestIn<V>(a: seq<Member<V>>, b: seq<Member<V>>)
    requires Ascending(a) && a != [] && b != [] && a[0] == b[0]
    requires forall i | 0 <= i < |a| :: a[i] in b
    ensures forall i | 0 <= i < |a[1..]| :: a[1..][i] in b[1..]
  {
    forall i | 0 <= i < |a[1..]| ensures a[1..][i] in b[1..] {
      BelowIrreflexive(a[0].key);
      assert Below(a[0].key, a[i + 1].key) && a[i + 1] in b;
      var j :| 0 <= j < |b| && b[j] == a[i + 1];
      assert b[1..][j - 1] == a[i + 1];
    }
  }

  /** Two lists of distinctly keyed members sort alike exactly when they have the same members. */
  lemma {:induction false} SortDecidedByContents<V>(a: seq<Member<V>>, b: seq<Member<V>>)
    requires DistinctKeys(a) && DistinctKeys(b)
    ensures SortByKey(a) == SortByKey(b)
       <==> (forall i | 0 <= i < |a| :: a[i] in b) && (forall j | 0 <= j < |b| :: b[j] in a)
  {
    var p, q := SortByKey(a), SortByKey(b);
    if (forall i | 0 <= i < |a| :: a[i] in b) && (forall j | 0 <= j < |b| :: b[j] in a) {
      SortAscending(a);
      SortAscending(b);
      forall i | 0 <= i < |p| ensures p[i] in q { SortContents(a, p[i]); SortContents(b, p[i]); }
      forall j | 0 <= j < |q| ensures q[j] in p { SortContents(a, q[j]); SortContents(b, q[j]); }
      AscendingUnique(p, q);
    }
    if p == q {
      forall i | 0 <= i < |a| ensures a[i] in b { SortContents(a, a[i]); SortContents(b, a[i]); }
      forall j | 0 <= j < |b| ensures b[j] in a { SortContents(a, b[j]); SortContents(b, b[j]); }
    }
  }
}
