/** What a schema check expects, the key it is cached under, and the identifiers it accepts. */
module IntegrityKeys {
  import opened Prelude
  import opened JsText
  import opened Json
  import opened Canonical

  datatype Expectation = Expectation(table: JsString, columns: seq<JsString>)

  // ----- identifiers

  predicate StartsName(c: CodeUnit) { 65 <= c <= 90 || c == 95 || 97 <= c <= 122 }

  predicate ContinuesName(c: CodeUnit) { StartsName(c) || 48 <= c <= 57 }

  /** A letter or underscore, and then letters, digits and underscores. */
  predicate IsIdentifier(s: JsString) {
    s != [] && StartsName(s[0]) && forall i | 1 <= i < |s| :: ContinuesName(s[i])
  }

  /** The identifier in brackets, or nothing when it is refused. */
  function QuoteIdentifier(s: JsString): Option<JsString> {
    if IsIdentifier(s) then Some([91] + s + [93]) else None
  }

  /** The first name that cannot be quoted. */
  function FirstInvalid(names: seq<JsString>): Option<JsString> {
    if names == [] then None
    else if QuoteIdentifier(names[0]).Some? then FirstInvalid(names[1..]) else Some(names[0])
  }

  // ----- keys

  function Names(e: Expectation): seq<JsString> { [e.table] + Distinct(e.columns) }

  predicate Valid(e: Expectation) { FirstInvalid(Names(e)).None? }

  function AsMembers(s: seq<JsString>): (ms: seq<Member<()>>)
    ensures |ms| == |s| && forall i | 0 <= i < |s| :: ms[i] == Member(s[i], ())
  {
    seq(|s|, i requires 0 <= i < |s| => Member(s[i], ()))
  }

  function KeysOf(ms: seq<Member<()>>): (s: seq<JsString>)
    ensures |s| == |ms| && forall i | 0 <= i < |s| :: s[i] == ms[i].key
  {
    seq(|ms|, i requires 0 <= i < |ms| => ms[i].key)
  }

  function Sorted(s: seq<JsString>): seq<JsString> { KeysOf(SortByKey(AsMembers(s))) }

  /** Table, colon, and the distinct columns in order with commas between. */
  function KeyOf(e: Expectation): JsString { e.table + [58] + Join(Sorted(Distinct(e.columns)), COMMA) }

  // ----- when two keys coincide

  predicate SameColumns(e: Expectation, f: Expectation) {
    (forall i | 0 <= i < |e.columns| :: e.columns[i] in f.columns)
    && (forall i | 0 <= i < |f.columns| :: f.columns[i] in e.columns)
  }

  lemma {:induction false} FirstInvalidExactly(names: seq<JsString>)
    ensures FirstInvalid(names).None? <==> forall i | 0 <= i < |names| :: IsIdentifier(names[i])
    ensures FirstInvalid(names).Some? ==> FirstInvalid(names).value in names && !IsIdentifier(FirstInvalid(names).value)
    decreases |names|
  {
    hide IsIdentifier;
    if names != [] {
      FirstInvalidExactly(names[1..]);
      SplitAt(names, 1);
      assert forall i | 1 <= i < |names| :: names[i] == names[1..][i - 1];
      if FirstInvalid(names).None? {
        forall i | 0 <= i < |names| ensures IsIdentifier(names[i]) {
          if i > 0 { assert IsIdentifier(names[1..][i - 1]); }
        }
      }
    }
  }

  lemma TableEnds(s: JsString, x: JsString, t: JsString, y: JsString)
    requires 58 !in s && 58 !in t && s + [58] + x == t + [58] + y
    ensures s == t && x == y
  {
    var p := s + [58] + x;
    assert p[|s|] == 58 && p[|t|] == 58;
    assert forall i | 0 <= i < |s| :: p[i] == s[i] && p[i] != 58;
    assert forall i | 0 <= i < |t| :: p[i] == t[i] && p[i] != 58;
    assert s == p[..|s|] && t == p[..|t|] && x == p[|s| + 1..] && y == p[|t| + 1..];
  }

  predicate NoComma(s: seq<JsString>) { forall i | 0 <= i < |s| :: s[i] != [] && 44 !in s[i] }

  /** A name ends where the text does or at the first comma. */
  lemma NameEnds(s: JsString, x: JsString, t: JsString, y: JsString)
    requires 44 !in s && 44 !in t && s + x == t + y
    requires x == [] || x[0] == 44
    requires y == [] || y[0] == 44
    ensures s == t && x == y
  {
    var p := s + x;
    assert |s| < |p| ==> p[|s|] == 44;
    assert |t| < |p| ==> p[|t|] == 44;
    assert forall i | 0 <= i < |s| :: p[i] == s[i] && p[i] != 44;
    assert forall i | 0 <= i < |t| :: p[i] == t[i] && p[i] != 44;
    assert s == p[..|s|] && t == p[..|t|] && x == p[|s|..] && y == p[|t|..];
  }

  function MoreNames(s: seq<JsString>): JsString { if |s| <= 1 then [] else [44] + Join(s[1..], COMMA) }

  lemma JoinParts(s: seq<JsString>)
    requires s != [] && NoComma(s)
    ensures Join(s, COMMA) == s[0] + MoreNames(s) && |Join(s, COMMA)| > 0
    ensures |s| > 1 ==> MoreNames(s) != [] && MoreNames(s)[0] == 44 && MoreNames(s)[1..] == Join(s[1..], COMMA)
    ensures |s| <= 1 ==> MoreNames(s) == []
  {
    if |s| > 1 { Regroup(s[0], [44], Join(s[1..], COMMA)); }
  }

  lemma JoinReadable(s: seq<JsString>, t: seq<JsString>)
    requires NoComma(s) && NoComma(t) && Join(s, COMMA) == Join(t, COMMA)
    ensures s == t
  {
    if s != [] { JoinParts(s); }
    if t != [] { JoinParts(t); }
    if s != [] && t != [] { MoreReadable(s, t); }
  }

  lemma {:induction false} MoreReadable(s: seq<JsString>, t: seq<JsString>)
    requires NoComma(s) && NoComma(t) && s != [] && t != [] && Join(s, COMMA) == Join(t, COMMA)
    ensures s == t
    decreases |s|
  {
    hide Join, MoreNames;
    JoinParts(s);
    JoinParts(t);
    NameEnds(s[0], MoreNames(s), t[0], MoreNames(t));
    if |s| > 1 { MoreReadable(s[1..], t[1..]); }
    SplitAt(s, 1);
    SplitAt(t, 1);
  }

  lemma SortedHas(s: seq<JsString>, x: JsString)
    ensures x in Sorted(s) <==> x in s
  {
    var ms := AsMembers(s);
    SortContents(ms, Member(x, ()));
    if x in s {
      var i :| 0 <= i < |s| && s[i] == x;
      assert ms[i] == Member(x, ());
      var j :| 0 <= j < |SortByKey(ms)| && SortByKey(ms)[j] == Member(x, ());
      assert Sorted(s)[j] == x;
    }
    if x in Sorted(s) {
      var j :| 0 <= j < |Sorted(s)| && Sorted(s)[j] == x;
      var m := SortByKey(ms)[j];
      assert m.value == () && m == Member(x, ());
    }
  }

  /** Two lists sort alike exactly when they hold the same names. */
  lemma SortedDecided(s: seq<JsString>, t: seq<JsString>)
    ensures Sorted(Distinct(s)) == Sorted(Distinct(t))
            <==> (forall i | 0 <= i < |s| :: s[i] in t) && (forall i | 0 <= i < |t| :: t[i] in s)
  {
    hide SortByKey;
    var a, b := AsMembers(Distinct(s)), AsMembers(Distinct(t));
    if (forall i | 0 <= i < |s| :: s[i] in t) && (forall i | 0 <= i < |t| :: t[i] in s) {
      MembersIn(s, t);
      MembersIn(t, s);
      SortDecidedByContents(a, b);
    }
    if Sorted(Distinct(s)) == Sorted(Distinct(t)) {
      forall i | 0 <= i < |s| ensures s[i] in t { SortedHas(Distinct(s), s[i]); SortedHas(Distinct(t), s[i]); }
      forall i | 0 <= i < |t| ensures t[i] in s { SortedHas(Distinct(s), t[i]); SortedHas(Distinct(t), t[i]); }
    }
  }

  lemma MembersIn(s: seq<JsString>, t: seq<JsString>)
    requires forall i | 0 <= i < |s| :: s[i] in t
    ensures forall i | 0 <= i < |AsMembers(Distinct(s))| :: AsMembers(Distinct(s))[i] in AsMembers(Distinct(t))
  {
    var a, b := AsMembers(Distinct(s)), AsMembers(Distinct(t));
    forall i | 0 <= i < |a| ensures a[i] in b {
      assert Distinct(s)[i] in s;
      assert Distinct(s)[i] in Distinct(t);
      var j :| 0 <= j < |Distinct(t)| && Distinct(t)[j] == Distinct(s)[i];
      assert b[j] == a[i];
    }
  }

  lemma IdentifierUnits(s: JsString)
    requires IsIdentifier(s)
    ensures 58 !in s && 44 !in s && s != []
  {
  }

  lemma ValidNames(e: Expectation)
    requires Valid(e)
    ensures 58 !in e.table && NoComma(Sorted(Distinct(e.columns)))
  {
    hide IsIdentifier, Sorted;
    var names, sorted := Names(e), Sorted(Distinct(e.columns));
    FirstInvalidExactly(names);
    assert names[0] == e.table;
    IdentifierUnits(e.table);
    forall i | 0 <= i < |sorted| ensures sorted[i] != [] && 44 !in sorted[i] {
      SortedHas(Distinct(e.columns), sorted[i]);
      var j :| 0 <= j < |Distinct(e.columns)| && Distinct(e.columns)[j] == sorted[i];
      assert names[j + 1] == sorted[i];
      IdentifierUnits(sorted[i]);
    }
  }

  /** For valid identifiers two expectations share a key exactly when they have the same table and the
      same set of columns. */
  lemma KeysCoincideExactly(e: Expectation, f: Expectation)
    requires Valid(e) && Valid(f)
    ensures KeyOf(e) == KeyOf(f) <==> e.table == f.table && SameColumns(e, f)
  {
    hide Sorted, Distinct, Valid;
    SortedDecided(e.columns, f.columns);
    ValidNames(e);
    ValidNames(f);
    var c, d := Sorted(Distinct(e.columns)), Sorted(Distinct(f.columns));
    if KeyOf(e) == KeyOf(f) {
      TableEnds(e.table, Join(c, COMMA), f.table, Join(d, COMMA));
      JoinReadable(c, d);
    }
  }

  lemma SortedPair(a: JsString, b: JsString)
    requires Below(a, b) && a != b
    ensures Sorted(Distinct([a, b])) == [a, b] && Sorted(Distinct([a])) == [a]
  {
    hide Below;
    assert [a][..0] == [] && [a, b][..1] == [a];
    assert Distinct([a]) == [a] && Distinct([a, b]) == [a, b];
    var ma, mb := Member(a, ()), Member(b, ());
    assert AsMembers([a]) == [ma] && AsMembers([a, b]) == [ma, mb];
    assert [ma, mb][1..] == [mb] && [mb][1..] == [] && [ma][1..] == [];
    assert SortByKey([ma]) == [ma] && SortByKey([mb]) == [mb] && SortByKey([ma, mb]) == [ma, mb];
  }

  /** Without valid identifiers they can: one column named "a,b", and the columns "a" and "b". */
  lemma InvalidNameSharesKey(table: JsString)
    requires IsIdentifier(table)
    ensures var e, f := Expectation(table, [[97, 44, 98]]), Expectation(table, [[97], [98]]);
            KeyOf(e) == KeyOf(f) && !Valid(e) && Valid(f)
  {
    hide *;
    var a: JsString, b: JsString, both: JsString := [97], [98], [97, 44, 98];
    Letters();
    SortedPair(a, b);
    SortedPair(both, b);
    JoinOfPair(a, b);
    JoinOfPair(both, b);
    assert a + [44] + b == both;
    KeyFromSorted(Expectation(table, [both]), [both]);
    KeyFromSorted(Expectation(table, [a, b]), [a, b]);
    DistinctPair(a, b);
    DistinctPair(both, b);
    assert !IsIdentifier([both][0]);
    ValidExactly(Expectation(table, [both]), [both]);
    ValidExactly(Expectation(table, [a, b]), [a, b]);
  }

  lemma DistinctPair(a: JsString, b: JsString)
    requires a != b
    ensures Distinct([a]) == [a] && Distinct([a, b]) == [a, b]
  {
    assert [a][..0] == [] && [a, b][..1] == [a];
  }

  lemma Letters()
    ensures Below([97], [98]) && Below([97, 44, 98], [98])
    ensures IsIdentifier([97]) && IsIdentifier([98]) && !IsIdentifier([97, 44, 98])
  {
    var both: JsString := [97, 44, 98];
    assert both[1] == 44;
  }

  lemma JoinOfPair(a: JsString, b: JsString)
    ensures Join([a], COMMA) == a && Join([a, b], COMMA) == a + [44] + b
  {
    assert [a, b][1..] == [b];
  }

  lemma KeyFromSorted(e: Expectation, sorted: seq<JsString>)
    requires Sorted(Distinct(e.columns)) == sorted
    ensures KeyOf(e) == e.table + [58] + Join(sorted, COMMA)
  {
  }

  lemma ValidExactly(e: Expectation, distinct: seq<JsString>)
    requires Distinct(e.columns) == distinct
    ensures Valid(e) <==> IsIdentifier(e.table) && forall i | 0 <= i < |distinct| :: IsIdentifier(distinct[i])
  {
    hide IsIdentifier;
    FirstInvalidExactly(Names(e));
    assert Names(e)[0] == e.table;
    assert forall i | 0 <= i < |distinct| :: Names(e)[i + 1] == distinct[i];
    assert forall i | 1 <= i < |Names(e)| :: Names(e)[i] == distinct[i - 1];
  }

  // ----- identifiers and keys, spelled out

  /** A name is quoted, in brackets, exactly if it is a letter or underscore followed by letters, digits and
      underscores. */
  lemma QuotedExactly(s: JsString)
    ensures QuoteIdentifier(s).Some?
            <==> && s != [] && (65 <= s[0] <= 90 || s[0] == 95 || 97 <= s[0] <= 122)
                 && forall i | 1 <= i < |s| ::
                      65 <= s[i] <= 90 || s[i] == 95 || 97 <= s[i] <= 122 || 48 <= s[i] <= 57
    ensures QuoteIdentifier(s).Some? ==> QuoteIdentifier(s).value == Units("[") + s + Units("]")
  {
    assert Units("[") == [91] && Units("]") == [93];
  }

  /** A key is the table, a colon, and the columns in order with commas between, each once: for two columns given in
      the other order, the second again. */
  lemma KeyOfTwo(table: JsString, a: JsString, b: JsString)
    requires Below(a, b) && a != b
    ensures KeyOf(Expectation(table, [b, a, b])) == table + Units(":") + a + Units(",") + b
  {
    hide *;
    PairSortedAnyway(a, b);
    JoinOfPair(a, b);
    KeyFromSorted(Expectation(table, [b, a, b]), [a, b]);
    Separators();
    Regroup(table + [58], a + [44], b);
    Regroup(table + [58], a, [44]);
  }

  lemma Separators()
    ensures Units(":") == [58] && Units(",") == [44]
  {
  }

  lemma PairSortedAnyway(a: JsString, b: JsString)
    requires Below(a, b) && a != b
    ensures Sorted(Distinct([b, a, b])) == [a, b]
  {
    hide Below, Sorted, Distinct;
    SortedDecided([b, a, b], [a, b]);
    SortedPair(a, b);
  }
}
