/** Bounding and stripping evidence before it is fingerprinted. */
module Evidence {
  import opened JsText
  import opened Json
  import opened Canonical
  import opened CanonicalTheorems
  import opened Fingerprint

  /** How many elements `slice(0, bound)` keeps of `length`; a negative bound counts from the end. */
  function Kept(length: nat, bound: int): (k: nat)
    ensures k <= length
  {
    if bound < 0 then (if length + bound < 0 then 0 else length + bound)
    else if bound < length then bound else length
  }

  function Compact(v: Json, bound: int): Json {
    match v
    case Arr(items) =>
      var k := Kept(|items|, bound);
      Arr(seq(k, i requires 0 <= i < k => Compact(items[i], bound)))
    case Obj(ms) => Obj(CompactMembers(ms, bound))
    case _ => v
  }

  function CompactMembers(ms: seq<Member<Json>>, bound: int): seq<Member<Json>> {
    seq(|ms|, i requires 0 <= i < |ms| => Member(ms[i].key, Compact(ms[i].value, bound)))
  }

  const GENERATED_AT: JsString := [103, 101, 110, 101, 114, 97, 116, 101, 100, 95, 97, 116]
  const CREATED_AT: JsString := [99, 114, 101, 97, 116, 101, 100, 95, 97, 116]
  const UPDATED_AT: JsString := [117, 112, 100, 97, 116, 101, 100, 95, 97, 116]

  predicate Volatile(k: JsString) { k == GENERATED_AT || k == CREATED_AT || k == UPDATED_AT }

  function StableEvidence(v: Json): Json {
    match v
    case Arr(items) => Arr(seq(|items|, i requires 0 <= i < |items| => StableEvidence(items[i])))
    case Obj(ms) => Obj(StripMembers(ms))
    case _ => v
  }

  function StripMembers(ms: seq<Member<Json>>): seq<Member<Json>> {
    if ms == [] then []
    else if Volatile(ms[0].key) then StripMembers(ms[1..])
    else [Member(ms[0].key, StableEvidence(ms[0].value))] + StripMembers(ms[1..])
  }

  function SourceFingerprint(v: Json): JsString { Fnv1a(Stable(StableEvidence(v))) }

  // ----- compacting twice

  lemma {:induction false} CompactTwice(v: Json, m: nat, n: nat)
    ensures Compact(Compact(v, m), n) == Compact(v, if m < n then m else n)
    decreases v
  {
    match v
    case Arr(items) =>
      forall i | 0 <= i < |items|
        ensures Compact(Compact(items[i], m), n) == Compact(items[i], if m < n then m else n)
      {
        CompactTwice(items[i], m, n);
      }
    case Obj(ms) =>
      forall i | 0 <= i < |ms|
        ensures Compact(Compact(ms[i].value, m), n) == Compact(ms[i].value, if m < n then m else n)
      {
        CompactTwice(ms[i].value, m, n);
      }
    case _ =>
  }

  /** Compacting with bound `m` then `n` is compacting with the smaller of the two, for every value,
      exactly when neither bound is negative. */
  lemma CompactComposesExactly(m: int, n: int)
    ensures (forall v: Json :: Compact(Compact(v, m), n) == Compact(v, if m < n then m else n)) <==> m >= 0 && n >= 0
  {
    if m >= 0 && n >= 0 {
      forall v: Json ensures Compact(Compact(v, m), n) == Compact(v, if m < n then m else n) { CompactTwice(v, m, n); }
    } else {
      var length := 1 + (if m < 0 then -m else m) + (if n < 0 then -n else n);
      var v := Arr(seq(length, i => Null));
      assert |Compact(v, m).items| == Kept(length, m);
      assert |Compact(Compact(v, m), n).items| == Kept(Kept(length, m), n);
      assert |Compact(v, if m < n then m else n).items| == Kept(length, if m < n then m else n);
    }
  }

  // ----- stripping

  lemma {:induction false} StrippedMembers(ms: seq<Member<Json>>, x: Member<Json>)
    ensures x in StripMembers(ms) <==>
      exists j | 0 <= j < |ms| :: !Volatile(ms[j].key) && x == Member(ms[j].key, StableEvidence(ms[j].value))
    decreases |ms|
  {
    if ms != [] {
      StrippedMembers(ms[1..], x);
      if exists j | 0 <= j < |ms| :: !Volatile(ms[j].key) && x == Member(ms[j].key, StableEvidence(ms[j].value)) {
        var j :| 0 <= j < |ms| && !Volatile(ms[j].key) && x == Member(ms[j].key, StableEvidence(ms[j].value));
        assert j > 0 ==> ms[1..][j - 1] == ms[j];
      }
      if x in StripMembers(ms[1..]) {
        var j :| 0 <= j < |ms[1..]| && !Volatile(ms[1..][j].key)
          && x == Member(ms[1..][j].key, StableEvidence(ms[1..][j].value));
        assert ms[j + 1] == ms[1..][j];
      }
    }
  }

  /** Stripping an already stripped value changes nothing. */
  lemma {:induction false} StripIdempotent(v: Json)
    ensures StableEvidence(StableEvidence(v)) == StableEvidence(v)
    decreases v
  {
    match v
    case Arr(items) =>
      forall i | 0 <= i < |items| ensures StableEvidence(StableEvidence(items[i])) == StableEvidence(items[i]) {
        StripIdempotent(items[i]);
      }
    case Obj(ms) => StripMembersIdempotent(ms);
    case _ =>
  }

  lemma {:induction false} StripMembersIdempotent(ms: seq<Member<Json>>)
    ensures StripMembers(StripMembers(ms)) == StripMembers(ms)
    decreases ms
  {
    if ms != [] {
      StripMembersIdempotent(ms[1..]);
      if !Volatile(ms[0].key) {
        StripIdempotent(ms[0].value);
        var rest := StripMembers(ms[1..]);
        assert StripMembers(ms)[1..] == rest;
      }
    }
  }

  /** Stripping and compacting may be done in either order, whatever the bound. */
  lemma {:induction false} StripCommutesWithCompact(v: Json, n: int)
    ensures StableEvidence(Compact(v, n)) == Compact(StableEvidence(v), n)
    decreases v
  {
    match v
    case Arr(items) =>
      forall i | 0 <= i < |items| ensures StableEvidence(Compact(items[i], n)) == Compact(StableEvidence(items[i]), n) {
        StripCommutesWithCompact(items[i], n);
      }
    case Obj(ms) => StripMembersCommutes(ms, n);
    case _ =>
  }

  lemma {:induction false} StripMembersCommutes(ms: seq<Member<Json>>, n: int)
    ensures StripMembers(CompactMembers(ms, n)) == CompactMembers(StripMembers(ms), n)
    decreases ms
  {
    if ms != [] {
      StripMembersCommutes(ms[1..], n);
      StripCommutesWithCompact(ms[0].value, n);
      assert CompactMembers(ms, n)[1..] == CompactMembers(ms[1..], n);
      var s := StripMembers(ms);
      if !Volatile(ms[0].key) {
        assert s[1..] == StripMembers(ms[1..]);
        assert CompactMembers(s, n) == [CompactMembers(s, n)[0]] + CompactMembers(s[1..], n);
      }
    }
  }

  // ----- what the fingerprint depends on

  /** Equality as trees with objects taken as maps, blind to the time stamps at every depth. */
  ghost predicate SameEvidence(v: Json, w: Json) {
    match (v, w)
    case (Arr(xs), Arr(ys)) => |xs| == |ys| && forall i | 0 <= i < |xs| :: SameEvidence(xs[i], ys[i])
    case (Obj(ms), Obj(ns)) =>
      && (forall i | 0 <= i < |ms| :: Volatile(ms[i].key) || HasEvidence(ms[i], ns))
      && (forall j | 0 <= j < |ns| :: Volatile(ns[j].key) || HasKey(ns[j].key, ms))
    case _ => v == w
  }

  ghost predicate HasEvidence(m: Member<Json>, ns: seq<Member<Json>>) {
    exists j | 0 <= j < |ns| :: ns[j].key == m.key && SameEvidence(m.value, ns[j].value)
  }

  lemma {:induction false} StripWellFormed(v: Json)
    requires WellFormed(v)
    ensures WellFormed(StableEvidence(v))
    decreases v
  {
    match v
    case Arr(items) =>
      forall i | 0 <= i < |items| ensures WellFormed(StableEvidence(items[i])) { StripWellFormed(items[i]); }
    case Obj(ms) => StripMembersWellFormed(ms);
    case _ =>
  }

  lemma {:induction false} StripMembersWellFormed(ms: seq<Member<Json>>)
    requires WellFormed(Obj(ms))
    ensures WellFormed(Obj(StripMembers(ms)))
    decreases ms
  {
    if ms != [] {
      assert DistinctKeys(ms[1..]);
      StripMembersWellFormed(ms[1..]);
      StripWellFormed(ms[0].value);
      var rest := StripMembers(ms[1..]);
      forall i | 0 <= i < |rest| ensures rest[i].key != ms[0].key {
        StrippedMembers(ms[1..], rest[i]);
      }
    }
  }

  lemma {:induction false} SameEvidenceIsSameStripped(v: Json, w: Json)
    ensures SameEvidence(v, w) <==> Same(StableEvidence(v), StableEvidence(w))
    decreases v
  {
    match (v, w)
    case (Arr(xs), Arr(ys)) =>
      var ps, qs := StableEvidence(v).items, StableEvidence(w).items;
      forall i | 0 <= i < |xs| && |xs| == |ys| ensures SameEvidence(xs[i], ys[i]) <==> Same(ps[i], qs[i]) {
        SameEvidenceIsSameStripped(xs[i], ys[i]);
      }
      assert |xs| == |ys|
        ==> ((forall i | 0 <= i < |xs| :: SameEvidence(xs[i], ys[i]))
             <==> (forall i | 0 <= i < |xs| :: Same(ps[i], qs[i])));
    case (Obj(ms), Obj(ns)) =>
      forall i | 0 <= i < |ms| && !Volatile(ms[i].key)
        ensures HasEvidence(ms[i], ns) <==> HasSame(Member(ms[i].key, StableEvidence(ms[i].value)), StripMembers(ns))
      {
        HasEvidenceIsHasStripped(ms[i], ns);
      }
      if SameEvidence(v, w) { EvidenceThenSame(ms, ns); }
      if Same(StableEvidence(v), StableEvidence(w)) { SameThenEvidence(ms, ns); }
    case _ =>
  }

  lemma {:induction false} HasEvidenceIsHasStripped(m: Member<Json>, ns: seq<Member<Json>>)
    requires !Volatile(m.key)
    ensures HasEvidence(m, ns) <==> HasSame(Member(m.key, StableEvidence(m.value)), StripMembers(ns))
    decreases m
  {
    var m', ns' := Member(m.key, StableEvidence(m.value)), StripMembers(ns);
    if HasEvidence(m, ns) {
      var j :| 0 <= j < |ns| && ns[j].key == m.key && SameEvidence(m.value, ns[j].value);
      SameEvidenceIsSameStripped(m.value, ns[j].value);
      var x := Member(ns[j].key, StableEvidence(ns[j].value));
      StrippedMembers(ns, x);
      var k :| 0 <= k < |ns'| && ns'[k] == x;
    }
    if HasSame(m', ns') {
      var k :| 0 <= k < |ns'| && ns'[k].key == m'.key && Same(m'.value, ns'[k].value);
      StrippedMembers(ns, ns'[k]);
      var j :| 0 <= j < |ns| && !Volatile(ns[j].key) && ns'[k] == Member(ns[j].key, StableEvidence(ns[j].value));
      SameEvidenceIsSameStripped(m.value, ns[j].value);
    }
  }

  lemma StrippedHasKey(k: JsString, ms: seq<Member<Json>>)
    ensures HasKey(k, StripMembers(ms)) <==> HasKey(k, ms) && !Volatile(k)
  {
    var ms' := StripMembers(ms);
    if HasKey(k, ms) && !Volatile(k) {
      var i :| 0 <= i < |ms| && ms[i].key == k;
      var x := Member(k, StableEvidence(ms[i].value));
      StrippedMembers(ms, x);
      var j :| 0 <= j < |ms'| && ms'[j] == x;
    }
    if HasKey(k, ms') {
      var j :| 0 <= j < |ms'| && ms'[j].key == k;
      StrippedMembers(ms, ms'[j]);
    }
  }

  lemma EvidenceThenSame(ms: seq<Member<Json>>, ns: seq<Member<Json>>)
    requires forall i | 0 <= i < |ms| && !Volatile(ms[i].key) ::
               HasEvidence(ms[i], ns) <==> HasSame(Member(ms[i].key, StableEvidence(ms[i].value)), StripMembers(ns))
    requires SameEvidence(Obj(ms), Obj(ns))
    ensures Same(Obj(StripMembers(ms)), Obj(StripMembers(ns)))
  {
    var ms', ns' := StripMembers(ms), StripMembers(ns);
    forall k | 0 <= k < |ms'| ensures HasSame(ms'[k], ns') {
      StrippedMembers(ms, ms'[k]);
    }
    forall k | 0 <= k < |ns'| ensures HasKey(ns'[k].key, ms') {
      StrippedMembers(ns, ns'[k]);
      StrippedHasKey(ns'[k].key, ms);
    }
  }

  lemma SameThenEvidence(ms: seq<Member<Json>>, ns: seq<Member<Json>>)
    requires forall i | 0 <= i < |ms| && !Volatile(ms[i].key) ::
               HasEvidence(ms[i], ns) <==> HasSame(Member(ms[i].key, StableEvidence(ms[i].value)), StripMembers(ns))
    requires Same(Obj(StripMembers(ms)), Obj(StripMembers(ns)))
    ensures SameEvidence(Obj(ms), Obj(ns))
  {
    var ms', ns' := StripMembers(ms), StripMembers(ns);
    forall i | 0 <= i < |ms| && !Volatile(ms[i].key) ensures HasEvidence(ms[i], ns) {
      var x := Member(ms[i].key, StableEvidence(ms[i].value));
      StrippedMembers(ms, x);
      var k :| 0 <= k < |ms'| && ms'[k] == x;
      assert HasSame(ms'[k], ns');
    }
    forall j | 0 <= j < |ns| && !Volatile(ns[j].key) ensures HasKey(ns[j].key, ms) {
      assert HasKey(ns[j].key, ns);
      StrippedHasKey(ns[j].key, ns);
      var k :| 0 <= k < |ns'| && ns'[k].key == ns[j].key;
      assert HasKey(ns'[k].key, ms');
      StrippedHasKey(ns[j].key, ms);
    }
  }

  /** What is hashed for the decision fingerprint is the same text exactly when the two decisions agree
      in everything but the time stamps; in particular the fingerprint never depends on a time stamp. */
  lemma FingerprintIgnoresExactlyTimeStamps(v: Json, w: Json)
    requires WellFormed(v) && WellFormed(w)
    ensures Stable(StableEvidence(v)) == Stable(StableEvidence(w)) <==> SameEvidence(v, w)
    ensures SameEvidence(v, w) ==> SourceFingerprint(v) == SourceFingerprint(w)
  {
    StripWellFormed(v);
    StripWellFormed(w);
    StableIsCanonical(StableEvidence(v), StableEvidence(w));
    SameEvidenceIsSameStripped(v, w);
  }

  // ----- the three time stamps, spelled out

  predicate IsTimeStamp(k: JsString) {
    k == Units("generated_at") || k == Units("created_at") || k == Units("updated_at")
  }

  lemma TimeStampsSpelled(k: JsString)
    ensures IsTimeStamp(k) <==> Volatile(k)
  {
    assert Units("generated_at") == GENERATED_AT;
    assert Units("created_at") == CREATED_AT;
    assert Units("updated_at") == UPDATED_AT;
  }

  /** At most one member, with key `k`. */
  predicate Stamp(k: JsString, ms: seq<Member<Json>>) { |ms| <= 1 && (ms != [] ==> ms[0].key == k) }

  /** `w` is `v` with one member of key `k` added, removed or changed, at any depth. */
  ghost predicate Restamped(k: JsString, v: Json, w: Json) {
    match (v, w)
    case (Arr(xs), Arr(ys)) => exists i | 0 <= i < |xs| == |ys| :: Restamped(k, xs[i], ys[i]) && ys == xs[i := ys[i]]
    case (Obj(ms), Obj(ns)) =>
      || (exists before, old', new', after ::
            Stamp(k, old') && Stamp(k, new') && ms == before + old' + after && ns == before + new' + after)
      || (exists i | 0 <= i < |ms| == |ns| ::
            Restamped(k, ms[i].value, ns[i].value) && ms[i].key == ns[i].key && ns == ms[i := ns[i]])
    case _ => false
  }

  lemma {:induction false} StripParts(a: seq<Member<Json>>, b: seq<Member<Json>>)
    ensures StripMembers(a + b) == StripMembers(a) + StripMembers(b)
    decreases |a|
  {
    hide Volatile;
    if a == [] {
      assert a + b == b;
    } else {
      assert (a + b)[1..] == a[1..] + b;
      StripParts(a[1..], b);
    }
  }

  lemma StampStripped(k: JsString, ms: seq<Member<Json>>)
    requires Stamp(k, ms) && Volatile(k)
    ensures StripMembers(ms) == []
  {
    if ms != [] { assert ms[1..] == []; }
  }

  lemma StampsStripped(k: JsString, before: seq<Member<Json>>, ms: seq<Member<Json>>, after: seq<Member<Json>>)
    requires Stamp(k, ms) && Volatile(k)
    ensures StripMembers(before + ms + after) == StripMembers(before) + StripMembers(after)
  {
    hide Volatile, StripMembers;
    StripParts(before + ms, after);
    StripParts(before, ms);
    StampStripped(k, ms);
  }

  /** Whatever is done to a `generated_at`, `created_at` or `updated_at` at any depth, the stripped evidence and so
      the text that is hashed stay the same. */
  lemma {:induction false} TimeStampsNeverMatter(k: JsString, v: Json, w: Json)
    requires k == Units("generated_at") || k == Units("created_at") || k == Units("updated_at")
    requires Restamped(k, v, w)
    ensures StableEvidence(v) == StableEvidence(w) && SourceFingerprint(v) == SourceFingerprint(w)
    decreases v
  {
    TimeStampsSpelled(k);
    StampedTreesAgree(k, v, w);
  }

  lemma {:induction false} StampedTreesAgree(k: JsString, v: Json, w: Json)
    requires Volatile(k) && Restamped(k, v, w)
    ensures StableEvidence(v) == StableEvidence(w)
    decreases v
  {
    hide Volatile, StripMembers, Stamp;
    match (v, w)
    case (Arr(xs), Arr(ys)) =>
      var i :| 0 <= i < |xs| == |ys| && Restamped(k, xs[i], ys[i]) && ys == xs[i := ys[i]];
      StampedTreesAgree(k, xs[i], ys[i]);
    case (Obj(ms), Obj(ns)) =>
      if i :| 0 <= i < |ms| == |ns| && Restamped(k, ms[i].value, ns[i].value)
              && ms[i].key == ns[i].key && ns == ms[i := ns[i]]
      {
        StampedTreesAgree(k, ms[i].value, ns[i].value);
        MembersAgree(ms, ns, i);
      } else {
        var before, old', new', after :|
          Stamp(k, old') && Stamp(k, new') && ms == before + old' + after && ns == before + new' + after;
        StampsStripped(k, before, old', after);
        StampsStripped(k, before, new', after);
      }
    case _ =>
  }

  lemma MembersAgree(ms: seq<Member<Json>>, ns: seq<Member<Json>>, i: nat)
    requires i < |ms| == |ns| && ms[i].key == ns[i].key && ns == ms[i := ns[i]]
    requires StableEvidence(ms[i].value) == StableEvidence(ns[i].value)
    ensures StripMembers(ms) == StripMembers(ns)
  {
    hide StripMembers;
    assert ms == (ms[..i] + [ms[i]]) + ms[i + 1..] && ns == (ms[..i] + [ns[i]]) + ms[i + 1..];
    StripParts(ms[..i] + [ms[i]], ms[i + 1..]);
    StripParts(ms[..i], [ms[i]]);
    StripParts(ms[..i] + [ns[i]], ms[i + 1..]);
    StripParts(ms[..i], [ns[i]]);
    OneMemberStripped(ms[i]);
    OneMemberStripped(ns[i]);
  }

  lemma OneMemberStripped(m: Member<Json>)
    ensures StripMembers([m]) == if Volatile(m.key) then [] else [Member(m.key, StableEvidence(m.value))]
  {
    hide Volatile;
    assert [m][1..] == [];
  }

  /** Every other member is kept with its value stripped, and nothing else is there. */
  lemma OtherMembersKept(ms: seq<Member<Json>>, x: Member<Json>)
    ensures x in StableEvidence(Obj(ms)).members
            <==> exists j | 0 <= j < |ms| ::
                   x == Member(ms[j].key, StableEvidence(ms[j].value)) && ms[j].key != Units("generated_at")
                   && ms[j].key != Units("created_at") && ms[j].key != Units("updated_at")
  {
    hide Volatile, Units;
    StrippedMembers(ms, x);
    forall k: JsString ensures IsTimeStamp(k) <==> Volatile(k) { TimeStampsSpelled(k); }
    forall j | 0 <= j < |ms| ensures Volatile(ms[j].key) <==> IsTimeStamp(ms[j].key) { TimeStampsSpelled(ms[j].key); }
  }

  // ----- what compacting keeps

  /** A bound keeps that many of the first elements, or all if there are fewer; a negative one drops as many from the
      end. What is kept is compacted, members all are kept, and other values stay as they are. */
  lemma CompactKeepsTheFirst(v: Json, bound: int)
    ensures var kept := Compact(v, bound);
            match v
            case Arr(items) =>
              && kept.Arr?
              && |kept.items| == (if bound >= |items| then |items| else if bound >= 0 then bound
                                  else if |items| + bound > 0 then |items| + bound else 0)
              && forall i | 0 <= i < |kept.items| :: kept.items[i] == Compact(items[i], bound)
            case Obj(ms) =>
              && kept.Obj? && |kept.members| == |ms|
              && forall i | 0 <= i < |ms| :: kept.members[i] == Member(ms[i].key, Compact(ms[i].value, bound))
            case _ => kept == v
  {
  }
}
