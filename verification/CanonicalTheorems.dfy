/** `stable` is a canonical form: equal strings are equal values. */
module CanonicalTheorems {
  import opened JsText
  import opened Json
  import opened Canonical

  // ----- canonical values: members sorted, at every depth

  function Canon(v: Json): Json {
    match v
    case Arr(items) => Arr(CanonItems(items))
    case Obj(ms) => Obj(SortByKey(CanonMembers(ms)))
    case _ => v
  }

  function CanonItems(items: seq<Json>): seq<Json> {
    if items == [] then [] else [Canon(items[0])] + CanonItems(items[1..])
  }

  function CanonMembers(ms: seq<Member<Json>>): seq<Member<Json>> {
    if ms == [] then [] else [Member(ms[0].key, Canon(ms[0].value))] + CanonMembers(ms[1..])
  }

  lemma {:induction false} CanonItemsAt(items: seq<Json>)
    ensures |CanonItems(items)| == |items|
    ensures forall i | 0 <= i < |items| :: CanonItems(items)[i] == Canon(items[i])
    decreases |items|
  {
    if items != [] { CanonItemsAt(items[1..]); }
  }

  lemma {:induction false} CanonMembersAt(ms: seq<Member<Json>>)
    ensures |CanonMembers(ms)| == |ms|
    ensures forall i | 0 <= i < |ms| :: CanonMembers(ms)[i] == Member(ms[i].key, Canon(ms[i].value))
    decreases |ms|
  {
    if ms != [] { CanonMembersAt(ms[1..]); }
  }

  // ----- values equal as trees have equal canonical values, and the converse

  lemma {:induction false} SameCanon(v: Json, w: Json)
    requires WellFormed(v) && WellFormed(w)
    ensures Same(v, w) <==> Canon(v) == Canon(w)
    decreases v
  {
    match (v, w)
    case (Arr(xs), Arr(ys)) =>
      CanonItemsAt(xs);
      CanonItemsAt(ys);
      forall i | 0 <= i < |xs| && |xs| == |ys| ensures Same(xs[i], ys[i]) <==> CanonItems(xs)[i] == CanonItems(ys)[i] {
        SameCanon(xs[i], ys[i]);
      }
    case (Obj(ms), Obj(ns)) =>
      forall i | 0 <= i < |ms| ensures HasSame(ms[i], ns) <==> HasCanon(ms[i], ns) {
        HasSameCanon(ms[i], ns);
      }
      SameMembersCanon(ms, ns);
    case _ =>
  }

  lemma {:induction false} HasSameCanon(m: Member<Json>, ns: seq<Member<Json>>)
    requires WellFormed(m.value) && forall j | 0 <= j < |ns| :: WellFormed(ns[j].value)
    ensures HasSame(m, ns) <==> HasCanon(m, ns)
    decreases m
  {
    forall j | 0 <= j < |ns| ensures Same(m.value, ns[j].value) <==> Canon(m.value) == Canon(ns[j].value) {
      SameCanon(m.value, ns[j].value);
    }
  }

  /** `ns` has a member with the key of `m` and the same canonical value. */
  ghost predicate HasCanon(m: Member<Json>, ns: seq<Member<Json>>) {
    exists j | 0 <= j < |ns| :: ns[j].key == m.key && Canon(ns[j].value) == Canon(m.value)
  }

  ghost predicate Covers(ms: seq<Member<Json>>, ns: seq<Member<Json>>) {
    forall i | 0 <= i < |ms| :: HasCanon(ms[i], ns)
  }

  lemma CoversIsContained(ms: seq<Member<Json>>, ns: seq<Member<Json>>)
    ensures Covers(ms, ns) <==> forall i | 0 <= i < |CanonMembers(ms)| :: CanonMembers(ms)[i] in CanonMembers(ns)
  {
    CanonMembersAt(ms);
    CanonMembersAt(ns);
    var cs, ds := CanonMembers(ms), CanonMembers(ns);
    forall i | 0 <= i < |ms| ensures HasCanon(ms[i], ns) <==> cs[i] in ds {
      if HasCanon(ms[i], ns) {
        var j :| 0 <= j < |ns| && ns[j].key == ms[i].key && Canon(ns[j].value) == Canon(ms[i].value);
        assert ds[j] == cs[i];
      }
      if cs[i] in ds {
        var j :| 0 <= j < |ds| && ds[j] == cs[i];
        assert ns[j].key == ms[i].key;
      }
    }
  }

  lemma SameMembersCanon(ms: seq<Member<Json>>, ns: seq<Member<Json>>)
    requires DistinctKeys(ms) && DistinctKeys(ns)
    requires forall i | 0 <= i < |ms| :: HasSame(ms[i], ns) <==> HasCanon(ms[i], ns)
    ensures Same(Obj(ms), Obj(ns)) <==> SortByKey(CanonMembers(ms)) == SortByKey(CanonMembers(ns))
  {
    CanonKeysDistinct(ms);
    CanonKeysDistinct(ns);
    CoversIsContained(ms, ns);
    CoversIsContained(ns, ms);
    SortDecidedByContents(CanonMembers(ms), CanonMembers(ns));
    SameIsCovers(ms, ns);
  }

  lemma CanonKeysDistinct(ms: seq<Member<Json>>)
    requires DistinctKeys(ms)
    ensures DistinctKeys(CanonMembers(ms))
  {
    CanonMembersAt(ms);
  }

  lemma SameIsCovers(ms: seq<Member<Json>>, ns: seq<Member<Json>>)
    requires DistinctKeys(ns)
    requires forall i | 0 <= i < |ms| :: HasSame(ms[i], ns) <==> HasCanon(ms[i], ns)
    ensures Same(Obj(ms), Obj(ns)) <==> Covers(ms, ns) && Covers(ns, ms)
  {
    KeysComplete(ms, ns);
  }

  /** When every member of `ms` is in `ns`, having no further key is having no further member. */
  lemma KeysComplete(ms: seq<Member<Json>>, ns: seq<Member<Json>>)
    requires DistinctKeys(ns)
    ensures Covers(ms, ns) ==> ((forall j | 0 <= j < |ns| :: HasKey(ns[j].key, ms)) <==> Covers(ns, ms))
  {
    if Covers(ms, ns) {
      forall j | 0 <= j < |ns| ensures HasKey(ns[j].key, ms) <==> HasCanon(ns[j], ms) {
        if HasKey(ns[j].key, ms) {
          var i :| 0 <= i < |ms| && ms[i].key == ns[j].key;
          assert HasCanon(ms[i], ns);
          var k :| 0 <= k < |ns| && ns[k].key == ms[i].key && Canon(ns[k].value) == Canon(ms[i].value);
          assert k == j;
        }
      }
    }
  }

  // ----- printing in the order given, in front of any text

  function PrintInto(v: Json, tail: JsString): JsString
    decreases v
  {
    match v
    case Null => [110, 117, 108, 108] + tail
    case Bool(b) => (if b then [116, 114, 117, 101] else [102, 97, 108, 115, 101]) + tail
    case Num(printed) => printed + tail
    case Str(s) => [34] + QuoteInto(s, tail)
    case Arr(items) => [91] + (if items == [] then [93] + tail else PrintInto(items[0], MoreItems(items[1..], tail)))
    case Obj(ms) => [123] + (if ms == [] then [125] + tail else MemberInto(ms[0], MoreMembers(ms[1..], tail)))
  }

  function MoreItems(items: seq<Json>, tail: JsString): JsString
    decreases items
  {
    if items == [] then [93] + tail else [44] + PrintInto(items[0], MoreItems(items[1..], tail))
  }

  function MemberInto(m: Member<Json>, tail: JsString): JsString
    decreases m
  {
    [34] + QuoteInto(m.key, [58] + PrintInto(m.value, tail))
  }

  function MoreMembers(ms: seq<Member<Json>>, tail: JsString): JsString
    decreases ms
  {
    if ms == [] then [125] + tail else [44] + MemberInto(ms[0], MoreMembers(ms[1..], tail))
  }

  /** `text` is the printed form of the canonical value `c`. */
  ghost predicate Prints(text: JsString, c: Json) {
    forall tail: JsString :: text + tail == PrintInto(c, tail)
  }

  ghost predicate MembersPrint(ps: seq<Member<JsString>>, cs: seq<Member<Json>>) {
    |ps| == |cs| && forall i | 0 <= i < |ps| :: ps[i].key == cs[i].key && Prints(ps[i].value, cs[i].value)
  }

  lemma {:induction false} JoinItemsPrint(items: seq<Json>, texts: seq<JsString>, tail: JsString)
    requires |items| == |texts| > 0 && forall i | 0 <= i < |items| :: Prints(texts[i], items[i])
    ensures Join(texts, COMMA) + ([93] + tail) == PrintInto(items[0], MoreItems(items[1..], tail))
    decreases |items|
  {
    if |items| > 1 {
      JoinItemsPrint(items[1..], texts[1..], tail);
      Regroup(texts[0], [44], Join(texts[1..], COMMA));
      Regroup(texts[0], [44] + Join(texts[1..], COMMA), [93] + tail);
      Regroup([44], Join(texts[1..], COMMA), [93] + tail);
    }
  }

  lemma LabelPrints(p: Member<JsString>, c: Member<Json>, tail: JsString)
    requires p.key == c.key && Prints(p.value, c.value)
    ensures Label(p) + tail == MemberInto(c, tail)
  {
    QuoteIntoIsQuote(p.key, [58] + (p.value + tail));
    Regroup(Quote(p.key), [58], p.value);
    Regroup(Quote(p.key), [58] + p.value, tail);
    Regroup([58], p.value, tail);
  }

  lemma {:induction false} JoinMembersPrint(ps: seq<Member<JsString>>, cs: seq<Member<Json>>, tail: JsString)
    requires MembersPrint(ps, cs) && |ps| > 0
    ensures Join(Labels(ps), COMMA) + ([125] + tail) == MemberInto(cs[0], MoreMembers(cs[1..], tail))
    decreases |ps|
  {
    if |ps| == 1 {
      LabelPrints(ps[0], cs[0], [125] + tail);
    } else {
      JoinMembersPrint(ps[1..], cs[1..], tail);
      assert Labels(ps)[1..] == Labels(ps[1..]);
      var rest := Join(Labels(ps[1..]), COMMA);
      LabelPrints(ps[0], cs[0], [44] + (rest + ([125] + tail)));
      Regroup(Label(ps[0]), [44], rest);
      Regroup(Label(ps[0]), [44] + rest, [125] + tail);
      Regroup([44], rest, [125] + tail);
    }
  }

  lemma {:induction false} InsertPrints(p: Member<JsString>, c: Member<Json>, ps: seq<Member<JsString>>,
                                        cs: seq<Member<Json>>)
    requires p.key == c.key && Prints(p.value, c.value) && MembersPrint(ps, cs)
    ensures MembersPrint(InsertMember(p, ps), InsertMember(c, cs))
    decreases |ps|
  {
    if ps != [] && !Below(p.key, ps[0].key) { InsertPrints(p, c, ps[1..], cs[1..]); }
  }

  lemma {:induction false} StablePrintsCanon(v: Json)
    ensures Prints(Stable(v), Canon(v))
    decreases v
  {
    match v
    case Arr(items) =>
      ItemsPrint(items);
      CanonItemsAt(items);
      forall tail: JsString ensures Stable(v) + tail == PrintInto(Canon(v), tail) { ArrPrints(items, tail); }
    case Obj(ms) =>
      SortedMembersPrint(ms);
      forall tail: JsString ensures Stable(v) + tail == PrintInto(Canon(v), tail) { ObjPrints(ms, tail); }
    case Str(s) =>
      forall tail: JsString ensures Stable(v) + tail == PrintInto(Canon(v), tail) { QuoteIntoIsQuote(s, tail); }
    case _ =>
  }

  lemma {:induction false} ItemsPrint(items: seq<Json>)
    ensures forall i | 0 <= i < |items| ::
              StableItems(items)[i] == Stable(items[i]) && Prints(Stable(items[i]), Canon(items[i]))
    decreases items
  {
    if items != [] {
      StablePrintsCanon(items[0]);
      ItemsPrint(items[1..]);
    }
  }

  lemma {:induction false} SortedMembersPrint(ms: seq<Member<Json>>)
    ensures MembersPrint(SortByKey(StableMembers(ms)), SortByKey(CanonMembers(ms)))
    decreases ms
  {
    if ms != [] {
      StablePrintsCanon(ms[0].value);
      SortedMembersPrint(ms[1..]);
      InsertPrints(Member(ms[0].key, Stable(ms[0].value)), Member(ms[0].key, Canon(ms[0].value)),
                   SortByKey(StableMembers(ms[1..])), SortByKey(CanonMembers(ms[1..])));
    }
  }

  lemma ArrPrints(items: seq<Json>, tail: JsString)
    requires |CanonItems(items)| == |items|
    requires forall i | 0 <= i < |items| :: Prints(StableItems(items)[i], CanonItems(items)[i])
    ensures Stable(Arr(items)) + tail == PrintInto(Canon(Arr(items)), tail)
  {
    var texts := StableItems(items);
    if items != [] { JoinItemsPrint(CanonItems(items), texts, tail); }
    Regroup([91] + Join(texts, COMMA), [93], tail);
    Regroup([91], Join(texts, COMMA), [93] + tail);
  }

  lemma ObjPrints(ms: seq<Member<Json>>, tail: JsString)
    requires MembersPrint(SortByKey(StableMembers(ms)), SortByKey(CanonMembers(ms)))
    ensures Stable(Obj(ms)) + tail == PrintInto(Canon(Obj(ms)), tail)
  {
    var ps, cs := SortByKey(StableMembers(ms)), SortByKey(CanonMembers(ms));
    if ps != [] { JoinMembersPrint(ps, cs, tail); } else { assert Labels(ps) == []; }
    Regroup([123] + Join(Labels(ps), COMMA), [125], tail);
    Regroup([123], Join(Labels(ps), COMMA), [125] + tail);
  }

  // ----- unique readability

  /** A number's printed form ends where a text that cannot continue a number begins. */
  ghost predicate Ends(x: JsString) {
    x == [] || !NumberUnit(x[0])
  }

  lemma NumberReadable(p: JsString, x: JsString, q: JsString, y: JsString)
    requires NumberText(p) && NumberText(q) && Ends(x) && Ends(y) && p + x == q + y
    ensures p == q && x == y
  {
    var whole := p + x;
    assert |p| < |whole| ==> whole[|p|] == x[0];
    assert |q| < |whole| ==> whole[|q|] == y[0];
    assert forall i | 0 <= i < |p| :: whole[i] == p[i];
    assert forall i | 0 <= i < |q| :: whole[i] == q[i];
    assert |p| == |q|;
    assert p == whole[..|p|] && q == whole[..|q|];
    assert x == whole[|p|..] && y == whole[|q|..];
  }

  /** The first unit of a printed value tells which kind of value it is. */
  predicate FirstUnitFits(c: CodeUnit, v: Json) {
    match v
    case Null => c == 110
    case Bool(b) => c == if b then 116 else 102
    case Num(_) => 48 <= c <= 57 || c == 45
    case Str(_) => c == 34
    case Arr(_) => c == 91
    case Obj(_) => c == 123
  }

  lemma FirstUnit(v: Json, tail: JsString)
    requires WellFormed(v)
    ensures PrintInto(v, tail) != [] && FirstUnitFits(PrintInto(v, tail)[0], v)
  {
  }

  lemma {:induction false} PrintReadable(v: Json, x: JsString, w: Json, y: JsString)
    requires WellFormed(v) && WellFormed(w) && Ends(x) && Ends(y)
    requires PrintInto(v, x) == PrintInto(w, y)
    ensures v == w && x == y
    decreases v
  {
    FirstUnit(v, x);
    FirstUnit(w, y);
    match (v, w)
    case (Null, Null) => assert x == PrintInto(v, x)[4..] == y;
    case (Bool(b), Bool(_)) =>
      var n := if b then 4 else 5;
      assert x == PrintInto(v, x)[n..] == y;
    case (Num(p), Num(q)) => NumberReadable(p, x, q, y);
    case (Str(s), Str(t)) =>
      assert QuoteInto(s, x) == PrintInto(v, x)[1..] == QuoteInto(t, y);
      QuoteIntoReadable(s, x, t, y);
    case (Arr(xs), Arr(ys)) =>
      assert PrintInto(v, x)[1..] == PrintInto(w, y)[1..];
      ArrReadable(xs, x, ys, y);
    case (Obj(ms), Obj(ns)) =>
      assert PrintInto(v, x)[1..] == PrintInto(w, y)[1..];
      ObjReadable(ms, x, ns, y);
    case _ =>
  }

  lemma {:induction false} ArrReadable(xs: seq<Json>, x: JsString, ys: seq<Json>, y: JsString)
    requires WellFormed(Arr(xs)) && WellFormed(Arr(ys)) && Ends(x) && Ends(y)
    requires PrintInto(Arr(xs), x)[1..] == PrintInto(Arr(ys), y)[1..]
    ensures xs == ys && x == y
    decreases xs, 1
  {
    if xs != [] { FirstUnit(xs[0], MoreItems(xs[1..], x)); }
    if ys != [] { FirstUnit(ys[0], MoreItems(ys[1..], y)); }
    if xs == [] || ys == [] {
      assert ([93] + x)[1..] == x && ([93] + y)[1..] == y;
    } else {
      PrintReadable(xs[0], MoreItems(xs[1..], x), ys[0], MoreItems(ys[1..], y));
      MoreItemsReadable(xs[1..], x, ys[1..], y);
      SplitAt(xs, 1);
      SplitAt(ys, 1);
    }
  }

  lemma {:induction false} MoreItemsReadable(xs: seq<Json>, x: JsString, ys: seq<Json>, y: JsString)
    requires WellFormed(Arr(xs)) && WellFormed(Arr(ys)) && Ends(x) && Ends(y)
    requires MoreItems(xs, x) == MoreItems(ys, y)
    ensures xs == ys && x == y
    decreases xs, 0
  {
    var p, q := MoreItems(xs, x), MoreItems(ys, y);
    assert p[0] == q[0] && p[1..] == q[1..];
    if xs == [] || ys == [] {
      assert ([93] + x)[1..] == x && ([93] + y)[1..] == y;
    } else {
      PrintReadable(xs[0], MoreItems(xs[1..], x), ys[0], MoreItems(ys[1..], y));
      MoreItemsReadable(xs[1..], x, ys[1..], y);
      SplitAt(xs, 1);
      SplitAt(ys, 1);
    }
  }

  lemma {:induction false} MemberReadable(m: Member<Json>, x: JsString, n: Member<Json>, y: JsString)
    requires WellFormed(m.value) && WellFormed(n.value) && Ends(x) && Ends(y)
    requires MemberInto(m, x) == MemberInto(n, y)
    ensures m == n && x == y
    decreases m
  {
    var p, q := [58] + PrintInto(m.value, x), [58] + PrintInto(n.value, y);
    assert QuoteInto(m.key, p) == MemberInto(m, x)[1..] == MemberInto(n, y)[1..] == QuoteInto(n.key, q);
    QuoteIntoReadable(m.key, p, n.key, q);
    assert PrintInto(m.value, x) == p[1..] == q[1..] == PrintInto(n.value, y);
    PrintReadable(m.value, x, n.value, y);
  }

  lemma {:induction false} ObjReadable(ms: seq<Member<Json>>, x: JsString, ns: seq<Member<Json>>, y: JsString)
    requires WellFormed(Obj(ms)) && WellFormed(Obj(ns)) && Ends(x) && Ends(y)
    requires PrintInto(Obj(ms), x)[1..] == PrintInto(Obj(ns), y)[1..]
    ensures ms == ns && x == y
    decreases ms, 1
  {
    if ms == [] || ns == [] {
      assert ([125] + x)[1..] == x && ([125] + y)[1..] == y;
    } else {
      MemberReadable(ms[0], MoreMembers(ms[1..], x), ns[0], MoreMembers(ns[1..], y));
      MoreMembersReadable(ms[1..], x, ns[1..], y);
      SplitAt(ms, 1);
      SplitAt(ns, 1);
    }
  }

  lemma {:induction false} MoreMembersReadable(ms: seq<Member<Json>>, x: JsString, ns: seq<Member<Json>>, y: JsString)
    requires WellFormed(Obj(ms)) && WellFormed(Obj(ns)) && Ends(x) && Ends(y)
    requires MoreMembers(ms, x) == MoreMembers(ns, y)
    ensures ms == ns && x == y
    decreases ms, 0
  {
    var p, q := MoreMembers(ms, x), MoreMembers(ns, y);
    assert p[0] == q[0] && p[1..] == q[1..];
    if ms == [] || ns == [] {
      assert ([125] + x)[1..] == x && ([125] + y)[1..] == y;
    } else {
      MemberReadable(ms[0], MoreMembers(ms[1..], x), ns[0], MoreMembers(ns[1..], y));
      MoreMembersReadable(ms[1..], x, ns[1..], y);
      SplitAt(ms, 1);
      SplitAt(ns, 1);
    }
  }

  // ----- the theorem

  lemma {:induction false} CanonWellFormed(v: Json)
    requires WellFormed(v)
    ensures WellFormed(Canon(v))
    decreases v
  {
    match v
    case Arr(items) =>
      CanonItemsAt(items);
      forall i | 0 <= i < |items| ensures WellFormed(CanonItems(items)[i]) { CanonWellFormed(items[i]); }
    case Obj(ms) =>
      CanonMembersAt(ms);
      CanonKeysDistinct(ms);
      var cs := CanonMembers(ms);
      var sorted := SortByKey(cs);
      SortAscending(cs);
      forall i, j | 0 <= i < j < |sorted| ensures sorted[i].key != sorted[j].key {
        BelowIrreflexive(sorted[i].key);
      }
      forall i | 0 <= i < |sorted| ensures WellFormed(sorted[i].value) {
        SortContents(cs, sorted[i]);
        var j :| 0 <= j < |cs| && cs[j] == sorted[i];
        CanonWellFormed(ms[j].value);
      }
    case _ =>
  }

  /** Two JSON values print the same string exactly when they are equal as trees with objects taken as
      maps: insertion order never matters, and no two different values collide. */
  lemma StableIsCanonical(v: Json, w: Json)
    requires WellFormed(v) && WellFormed(w)
    ensures Stable(v) == Stable(w) <==> Same(v, w)
  {
    StablePrintsCanon(v);
    StablePrintsCanon(w);
    SameCanon(v, w);
    assert Stable(v) + [] == PrintInto(Canon(v), []) && Stable(w) + [] == PrintInto(Canon(w), []);
    assert Stable(v) + [] == Stable(v) && Stable(w) + [] == Stable(w);
    if Stable(v) == Stable(w) {
      CanonWellFormed(v);
      CanonWellFormed(w);
      PrintReadable(Canon(v), [], Canon(w), []);
    }
  }

  // ----- the layout, spelled out

  /** No space anywhere, a comma between elements, a colon after a key, and keys in order: for any values `x` and
      `y`, the object of `b: [x, true, null]` and `a: y`. */
  lemma ObjectPrinted(x: Json, y: Json)
    ensures Stable(Obj([Member([98], Arr([x, Bool(true), Null])), Member([97], y)]))
            == Units("{\"a\":") + Stable(y) + Units(",\"b\":[") + Stable(x) + Units(",true,null]}")
  {
    hide Stable, SortByKey;
    var items := [x, Bool(true), Null];
    ArrayPrinted(x);
    PairSorted(Stable(y), Stable(Arr(items)));
    PairPrinted(y, Arr(items));
    assert Units("{\"a\":") == [123, 34, 97, 34, 58] && Units(",\"b\":[") == [44, 34, 98, 34, 58, 91];
    assert Units(",true,null]}") == [44, 116, 114, 117, 101, 44, 110, 117, 108, 108, 93, 125];
  }

  lemma ArrayPrinted(x: Json)
    ensures Stable(Arr([x, Bool(true), Null]))
            == [91] + Stable(x) + [44, 116, 114, 117, 101, 44, 110, 117, 108, 108, 93]
  {
    hide Join, Quote, SortByKey, StableMembers;
    var items := [x, Bool(true), Null];
    var t, n: JsString := [116, 114, 117, 101], [110, 117, 108, 108];
    ThreeItems(x, Bool(true), Null);
    ThreeJoined(Stable(x), t, n);
    assert Stable(Bool(true)) == t && Stable(Null) == n;
    assert Stable(Arr(items)) == [91] + Join([Stable(x), t, n], COMMA) + [93];
  }

  lemma ThreeItems(x: Json, y: Json, z: Json)
    ensures StableItems([x, y, z]) == [Stable(x), Stable(y), Stable(z)]
  {
    hide Stable;
    assert [x, y, z][1..] == [y, z] && [y, z][1..] == [z] && [z][1..] == [];
    assert StableItems([z]) == [Stable(z)] && StableItems([y, z]) == [Stable(y), Stable(z)];
  }

  lemma ThreeJoined(x: JsString, y: JsString, z: JsString)
    ensures Join([x, y, z], COMMA) == x + [44] + (y + [44] + z)
  {
    assert [x, y, z][1..] == [y, z] && [y, z][1..] == [z];
    assert Join([y, z], COMMA) == y + [44] + z;
  }

  lemma PairSorted(p: JsString, q: JsString)
    ensures var a, b := Member([97], p), Member([98], q); SortByKey([b, a]) == [a, b]
  {
    var a, b := Member([97], p), Member([98], q);
    assert [b, a][1..] == [a] && [a][1..] == [] && SortByKey([a]) == [a];
    assert Below([97], [98]) && !Below([98], [97]);
    assert InsertMember(b, [a]) == [a] + InsertMember(b, []);
  }

  lemma PairPrinted(y: Json, z: Json)
    requires SortByKey([Member([98], Stable(z)), Member([97], Stable(y))])
             == [Member([97], Stable(y)), Member([98], Stable(z))]
    ensures Stable(Obj([Member([98], z), Member([97], y)]))
            == [123, 34, 97, 34, 58] + Stable(y) + [44, 34, 98, 34, 58] + Stable(z) + [125]
  {
    hide SortByKey, StableMembers, StableItems, Join, Labels;
    var ms := [Member([98], z), Member([97], y)];
    TwoMembers([98], z, [97], y);
    var la, lb := [34, 97, 34, 58] + Stable(y), [34, 98, 34, 58] + Stable(z);
    TwoLabels(Stable(y), Stable(z));
    assert Stable(Obj(ms)) == [123] + (la + [44] + lb) + [125];
    assert [123] + (la + [44] + lb) + [125]
        == [123, 34, 97, 34, 58] + Stable(y) + [44, 34, 98, 34, 58] + Stable(z) + [125];
  }

  lemma TwoMembers(k: JsString, v: Json, l: JsString, w: Json)
    ensures StableMembers([Member(k, v), Member(l, w)]) == [Member(k, Stable(v)), Member(l, Stable(w))]
  {
    hide Stable;
    var ms := [Member(k, v), Member(l, w)];
    assert ms[1..] == [Member(l, w)] && ms[1..][1..] == [];
    assert StableMembers(ms[1..]) == [Member(l, Stable(w))];
  }

  lemma TwoLabels(p: JsString, q: JsString)
    ensures Join(Labels([Member([97], p), Member([98], q)]), COMMA)
            == [34, 97, 34, 58] + p + [44] + ([34, 98, 34, 58] + q)
  {
    hide Quote;
    OneUnitQuoted(97);
    OneUnitQuoted(98);
    var la, lb := [34, 97, 34, 58] + p, [34, 98, 34, 58] + q;
    assert Label(Member([97], p)) == [34, 97, 34] + [58] + p == la;
    assert Label(Member([98], q)) == [34, 98, 34] + [58] + q == lb;
    assert Labels([Member([97], p), Member([98], q)]) == [la, lb];
    assert [la, lb][1..] == [lb] && Join([la, lb], COMMA) == la + [44] + lb;
  }
}
