/** The two search filters: LIKE patterns in SQL and substring tests in memory (internal/store/store.go). */
module Filter {
  import opened CatalogSpec
  import opened Text
  import opened TaskLabel

  // ---------------------------------------------------------------- LIKE

  /** The replacer of likeContains: backslash, percent sign and underscore get a backslash. */
  function Escape(q: string): string {
    if q == "" then ""
    else (if q[0] in "\\%_" then ['\\', q[0]] else [q[0]]) + Escape(q[1..])
  }

  function LikeContains(q: string): string { "%" + Escape(q) + "%" }

  /** LIKE with escape character backslash, case-insensitive for ASCII. */
  predicate Like(pattern: string, s: string)
    decreases |pattern|, |s|
  {
    if pattern == "" then s == ""
    else if pattern[0] == '%' then
      Like(pattern[1..], s) || (s != "" && Like(pattern, s[1..]))
    else if pattern[0] == '_' then
      s != "" && Like(pattern[1..], s[1..])
    else if pattern[0] == '\\' then
      |pattern| > 1 && s != "" && LowerChar(pattern[1]) == LowerChar(s[0]) && Like(pattern[2..], s[1..])
    else
      s != "" && LowerChar(pattern[0]) == LowerChar(s[0]) && Like(pattern[1..], s[1..])
  }

  lemma {:induction false} PercentMatchesAll(s: string)
    ensures Like("%", s)
  {
    if s != "" {
      PercentMatchesAll(s[1..]);
    }
  }

  lemma LowerTail(s: string)
    requires s != ""
    ensures Lower(s)[0] == LowerChar(s[0]) && Lower(s)[1..] == Lower(s[1..])
  {
    assert forall i | 0 <= i < |s| - 1 :: s[1..][i] == s[i + 1];
  }

  /** The escaped text matches itself up to case, and nothing else. */
  lemma {:induction false} EscapedPrefix(q: string, s: string)
    ensures Like(Escape(q) + "%", s) <==> Lower(q) <= Lower(s)
  {
    if q == "" {
      assert Escape(q) + "%" == "%";
      PercentMatchesAll(s);
    } else {
      var p := Escape(q) + "%";
      if q[0] in "\\%_" {
        assert p == ['\\', q[0]] + (Escape(q[1..]) + "%");
        assert p[2..] == Escape(q[1..]) + "%";
      } else {
        assert p == [q[0]] + (Escape(q[1..]) + "%");
        assert p[1..] == Escape(q[1..]) + "%";
      }
      LowerTail(q);
      if s != "" {
        LowerTail(s);
        EscapedPrefix(q[1..], s[1..]);
        assert Lower(q) <= Lower(s) <==> Lower(q)[0] == Lower(s)[0] && Lower(q)[1..] <= Lower(s)[1..];
      }
    }
  }

  /** The pattern built from `q` matches exactly the strings that contain `q`. */
  lemma {:induction false} LikeIsContainment(q: string, s: string)
    ensures Like(LikeContains(q), s) <==> Contains(Lower(s), Lower(q))
  {
    var p := LikeContains(q);
    assert p[1..] == Escape(q) + "%";
    EscapedPrefix(q, s);
    if s != "" {
      LowerTail(s);
      LikeIsContainment(q, s[1..]);
    }
  }

  // ---------------------------------------------------------------- the filters

  /** The WHERE clause of DB.List. */
  predicate SqlSelects(e: Entry, query: string) {
    var q := Trim(query);
    var like := LikeContains(q);
    q == "" || Like(like, e.hash) || Like(like, e.info.project) || Like(like, e.info.target) || Like(like, e.info.kind)
    || Like(like, e.info.project + ":" + e.info.target)
  }

  /** Entry.MatchesQuery. */
  predicate MatchesQuery(e: Entry, query: string) {
    var q := Lower(Trim(query));
    q == "" || Contains(Lower(e.hash), q) || Contains(Lower(e.info.project), q) || Contains(Lower(e.info.target), q)
    || Contains(Lower(e.info.kind), q) || Contains(Lower(Label(e.info)), q)
  }

  lemma SpaceHasNoCase(c: char)
    ensures IsSpace(LowerChar(c)) == IsSpace(c)
  {
  }

  predicate Tight(t: string) {
    t == "" || (!IsSpace(t[0]) && !IsSpace(t[|t| - 1]))
  }

  lemma TightIsTrimmed(t: string)
    requires Tight(t)
    ensures Trim(t) == t
  {
    TrimPadded("", t, "");
    assert "" + t + "" == t;
  }

  lemma TrimmedIsTight(t: string)
    ensures Tight(Trim(t))
  {
    var b, a := TrimSplits(t);
  }

  lemma LowerIsTight(t: string)
    requires Tight(t)
    ensures Tight(Lower(t))
  {
    if t != "" {
      SpaceHasNoCase(t[0]);
      SpaceHasNoCase(t[|t| - 1]);
    }
  }

  lemma LowerTwice(t: string)
    ensures Lower(Lower(t)) == Lower(t)
  {
    var once, twice := Lower(t), Lower(Lower(t));
    assert forall i | 0 <= i < |t| :: twice[i] == once[i];
  }

  /** The in-memory List normalises the query once more; that makes no difference. */
  lemma NormalisingTwice(e: Entry, query: string)
    ensures MatchesQuery(e, Lower(Trim(query))) == MatchesQuery(e, query)
  {
    TrimmedIsTight(query);
    LowerIsTight(Trim(query));
    TightIsTrimmed(Lower(Trim(query)));
    LowerTwice(Trim(query));
  }

  /** An occurrence of a colon-free text stays on one side of a colon. */
  lemma NotAcross(s: string, q: string, i: nat, n: nat)
    requires i + |q| <= |s| && s[i..i + |q|] == q && ':' !in q
    requires n < |s| && s[n] == ':'
    ensures i + |q| <= n || n < i
  {
    assert forall k | i <= k < i + |q| :: s[k] == q[k - i];
  }

  lemma OccursInEither(a: string, b: string, q: string)
    requires ':' !in q && Contains(a + ":" + b, q)
    ensures Contains(a, q) || Contains(b, q)
  {
    var s := a + ":" + b;
    var i := ContainsWhere(s, q);
    NotAcross(s, q, i, |a|);
    if i + |q| <= |a| {
      assert s[..|a|] == a;
      SliceOfSlice(s, 0, |a|, i, i + |q|);
      ContainsAt(a, q, i);
    } else {
      var n := |a| + 1;
      assert s[n..] == b;
      SliceOfSlice(s, n, |s|, i - n, i - n + |q|);
      ContainsAt(b, q, i - n);
    }
  }

  lemma OccursInWhole(s: string, n: nat, part: string, q: string)
    requires n + |part| <= |s| && s[n..n + |part|] == part && Contains(part, q)
    ensures Contains(s, q)
  {
    var i := ContainsWhere(part, q);
    SliceOfSlice(s, n, n + |part|, i, i + |q|);
    ContainsAt(s, q, n + i);
  }

  /** A query without a colon cannot straddle the colon of `project:target`. */
  lemma NoColonNoStraddle(a: string, b: string, q: string)
    requires ':' !in q
    ensures Contains(a + ":" + b, q) <==> Contains(a, q) || Contains(b, q)
  {
    var s := a + ":" + b;
    if Contains(s, q) {
      OccursInEither(a, b, q);
    }
    if Contains(a, q) {
      assert s[0..|a|] == a;
      OccursInWhole(s, 0, a, q);
    }
    if Contains(b, q) {
      assert s[|a| + 1..|a| + 1 + |b|] == b;
      OccursInWhole(s, |a| + 1, b, q);
    }
  }

  lemma LowerJoin(p: string, t: string)
    ensures Lower(p + ":" + t) == Lower(p) + ":" + Lower(t)
  {
  }

  lemma LowerKeepsColons(s: string)
    ensures ':' in Lower(s) <==> ':' in s
  {
    if ':' in s {
      var i :| 0 <= i < |s| && s[i] == ':';
      assert Lower(s)[i] == ':';
    }
  }

  /**
    Without a configuration the two filters select the same entries, for queries without a
    colon and for entries that name both project and target.
   */
  lemma FiltersAgree(e: Entry, query: string)
    requires e.info.config == ""
    requires ':' !in Trim(query) || (e.info.project != "" && e.info.target != "")
    ensures SqlSelects(e, query) == MatchesQuery(e, query)
  {
    var q := Trim(query);
    SqlByContainment(e, query);
    LowerJoin(e.info.project, e.info.target);
    if ':' !in q {
      LowerKeepsColons(q);
      NoColonNoStraddle(Lower(e.info.project), Lower(e.info.target), Lower(q));
    }
  }

  // ---------------------------------------------------------------- the condition is exact

  /** The fields both filters look at. */
  predicate InAnyField(e: Entry, q: string) {
    Contains(Lower(e.hash), q) || Contains(Lower(e.info.project), q) || Contains(Lower(e.info.target), q)
    || Contains(Lower(e.info.kind), q)
  }

  function Pair(e: Entry): string { e.info.project + ":" + e.info.target }

  lemma SqlByContainment(e: Entry, query: string)
    ensures var q := Lower(Trim(query));
            SqlSelects(e, query) == (q == "" || InAnyField(e, q) || Contains(Lower(Pair(e)), q))
  {
    var q := Trim(query);
    LikeIsContainment(q, e.hash);
    LikeIsContainment(q, e.info.project);
    LikeIsContainment(q, e.info.target);
    LikeIsContainment(q, e.info.kind);
    LikeIsContainment(q, Pair(e));
  }

  lemma ContainsTransitive(s: string, t: string, q: string)
    requires Contains(s, t) && Contains(t, q)
    ensures Contains(s, q)
  {
    var i := ContainsWhere(s, t);
    var j := ContainsWhere(t, q);
    SliceOfSlice(s, i, i + |t|, j, j + |q|);
    ContainsAt(s, q, i + j);
  }

  lemma LowerAt(s: string, i: nat, j: nat)
    requires i <= j <= |s|
    ensures Lower(s)[i..j] == Lower(s[i..j])
  {
    var x, y := Lower(s)[i..j], Lower(s[i..j]);
    assert forall k | 0 <= k < j - i :: x[k] == Lower(s)[i + k] && s[i..j][k] == s[i + k];
  }

  /** The part of a padded text that is not space is its core. */
  lemma VisibleInside(b: string, core: string, a: string, i: nat)
    requires AllSpace(b) && AllSpace(a) && i < |b| + |core| + |a|
    ensures IsSpace((b + core + a)[i]) || |b| <= i < |b| + |core|
  {
    var s := b + core + a;
    assert i < |b| ==> s[i] == b[i];
    assert i >= |b| + |core| ==> s[i] == a[i - |b| - |core|];
  }

  lemma LowerVisible(s: string, i: nat)
    requires i < |s| && !IsSpace(Lower(s)[i])
    ensures !IsSpace(s[i])
  {
    SpaceHasNoCase(s[i]);
  }

  /** An occurrence within a stretch of a text is an occurrence in that stretch. */
  lemma OccursBetween(s: string, n: nat, m: nat, q: string, i: nat)
    requires n <= i && i + |q| <= m <= |s| && Lower(s)[i..i + |q|] == q
    ensures Contains(Lower(s[n..m]), q)
  {
    var part := Lower(s[n..m]);
    LowerAt(s, n, m);
    assert part == Lower(s)[n..m];
    SliceOfSlice(Lower(s), n, m, i - n, i - n + |q|);
    ContainsAt(part, q, i - n);
  }

  /** A text without outer spaces that occurs in a padded text occurs in its core. */
  lemma OccursInCore(s: string, b: string, core: string, a: string, q: string, i: nat)
    requires s == b + core + a && AllSpace(b) && AllSpace(a) && q != "" && Tight(q)
    requires i + |q| <= |s| && Lower(s)[i..i + |q|] == q
    ensures Contains(Lower(core), q)
  {
    var last := i + |q| - 1;
    assert q[0] == Lower(s)[i] && q[|q| - 1] == Lower(s)[last];
    LowerVisible(s, i);
    LowerVisible(s, last);
    VisibleInside(b, core, a, i);
    VisibleInside(b, core, a, last);
    assert s[|b|..|b| + |core|] == core;
    OccursBetween(s, |b|, |b| + |core|, q, i);
  }

  /** What a trimmed query finds in a text it finds in the trimmed text. */
  lemma TrimmedOccurs(s: string, query: string)
    requires Trim(query) != "" && Contains(Lower(s), Lower(Trim(query)))
    ensures Contains(Lower(Trim(s)), Lower(Trim(query)))
  {
    var q := Lower(Trim(query));
    TrimmedIsTight(query);
    LowerIsTight(Trim(query));
    var b, a := TrimSplits(s);
    var i := ContainsWhere(Lower(s), q);
    OccursInCore(s, b, Trim(s), a, q, i);
  }

  predicate Agree(e: Entry, query: string) { SqlSelects(e, query) == MatchesQuery(e, query) }

  /** If the text only one side looks at is found by the other, so is everything inside it. */
  lemma FoundInside(e: Entry, own: string, other: string, query: string)
    requires Trim(query) != "" && Contains(Lower(own), Lower(Trim(query)))
    requires Trim(own) == "" || InAnyField(e, Lower(Trim(own))) || Contains(Lower(other), Lower(Trim(own)))
    ensures InAnyField(e, Lower(Trim(query))) || Contains(Lower(other), Lower(Trim(query)))
  {
    var q, t := Lower(Trim(query)), Lower(Trim(own));
    TrimmedOccurs(own, query);
    assert t != "";
    if Contains(Lower(e.hash), t) {
      ContainsTransitive(Lower(e.hash), t, q);
    } else if Contains(Lower(e.info.project), t) {
      ContainsTransitive(Lower(e.info.project), t, q);
    } else if Contains(Lower(e.info.target), t) {
      ContainsTransitive(Lower(e.info.target), t, q);
    } else if Contains(Lower(e.info.kind), t) {
      ContainsTransitive(Lower(e.info.kind), t, q);
    } else {
      ContainsTransitive(Lower(other), t, q);
    }
  }

  lemma ContainsTrimmed(s: string)
    ensures Contains(Lower(s), Lower(Trim(s)))
  {
    var b, a := TrimSplits(s);
    LowerAt(s, |b|, |b| + |Trim(s)|);
    assert s[|b|..|b| + |Trim(s)|] == Trim(s);
    ContainsAt(Lower(s), Lower(Trim(s)), |b|);
  }

  lemma AgreeEverywhere(e: Entry, query: string)
    requires Agree(e, Pair(e)) && Agree(e, Label(e.info))
    ensures Agree(e, query)
  {
    SqlByContainment(e, query);
    SqlByContainment(e, Pair(e));
    SqlByContainment(e, Label(e.info));
    ContainsTrimmed(Pair(e));
    ContainsTrimmed(Label(e.info));
    if Trim(query) != "" {
      var q := Lower(Trim(query));
      if Contains(Lower(Pair(e)), q) {
        FoundInside(e, Pair(e), Label(e.info), query);
      }
      if Contains(Lower(Label(e.info)), q) {
        FoundInside(e, Label(e.info), Pair(e), query);
      }
    }
  }

  /**
    For every entry whatever: the filters agree on all queries exactly when they agree on two,
    the label and the text `project:target`.
   */
  lemma TwoQueriesDecide(e: Entry)
    ensures (forall query: string :: Agree(e, query)) <==> Agree(e, Pair(e)) && Agree(e, Label(e.info))
  {
    if Agree(e, Pair(e)) && Agree(e, Label(e.info)) {
      forall query: string ensures Agree(e, query) {
        AgreeEverywhere(e, query);
      }
    }
  }

  function Colons(s: string): nat {
    if s == "" then 0 else (if s[0] == ':' then 1 else 0) + Colons(s[1..])
  }

  lemma {:induction false} ColonsAdd(a: string, b: string)
    ensures Colons(a + b) == Colons(a) + Colons(b)
  {
    if a == "" {
      assert a + b == b;
    } else {
      assert (a + b)[1..] == a[1..] + b;
      ColonsAdd(a[1..], b);
    }
  }

  lemma {:induction false} ColonsNone(s: string)
    requires ':' !in s
    ensures Colons(s) == 0
  {
    if s != "" {
      ColonsNone(s[1..]);
    }
  }

  lemma {:induction false} ColonsLower(s: string)
    ensures Colons(Lower(s)) == Colons(s)
  {
    if s != "" {
      LowerTail(s);
      ColonsLower(s[1..]);
    }
  }

  lemma ColonsTrim(s: string)
    ensures Colons(Trim(s)) == Colons(s)
  {
    var b, a := TrimSplits(s);
    ColonsAdd(b + Trim(s), a);
    ColonsAdd(b, Trim(s));
    ColonsNone(b);
    ColonsNone(a);
  }

  /** A text with more colons than another cannot occur in it. */
  lemma TooManyColons(s: string, query: string)
    requires Colons(query) > Colons(s)
    ensures !Contains(Lower(s), Lower(Trim(query)))
  {
    var q := Lower(Trim(query));
    ColonsTrim(query);
    ColonsLower(Trim(query));
    ColonsLower(s);
    if Contains(Lower(s), q) {
      var i := ContainsWhere(Lower(s), q);
      var t := Lower(s);
      assert t == t[..i] + q + t[i + |q|..];
      ColonsAdd(t[..i] + q, t[i + |q|..]);
      ColonsAdd(t[..i], q);
    }
  }

  /**
    Projects and targets come from request headers and may hold colons. Neither the hash nor
    the kind has more of them: a valid hash has none, and a kind is a fixed word or the
    trimmed target in lower case.
   */
  predicate PlainKeys(e: Entry) {
    var n := Colons(e.info.project) + Colons(e.info.target);
    Colons(e.hash) <= n && Colons(e.info.kind) <= n
  }

  lemma DerivedKindIsPlain(e: Entry)
    requires ':' !in e.hash && (':' !in e.info.kind || e.info.kind == Lower(Trim(e.info.target)))
    ensures PlainKeys(e)
  {
    ColonsNone(e.hash);
    if ':' !in e.info.kind {
      ColonsNone(e.info.kind);
    } else {
      ColonsLower(Trim(e.info.target));
      ColonsTrim(e.info.target);
    }
  }

  lemma NoFieldHolds(e: Entry, query: string)
    requires PlainKeys(e) && Colons(query) > Colons(e.info.project) + Colons(e.info.target)
    ensures !InAnyField(e, Lower(Trim(query)))
  {
    TooManyColons(e.hash, query);
    TooManyColons(e.info.project, query);
    TooManyColons(e.info.target, query);
    TooManyColons(e.info.kind, query);
  }

  lemma PairColons(e: Entry)
    ensures Colons(Pair(e)) == Colons(e.info.project) + 1 + Colons(e.info.target)
    ensures Lower(Trim(Pair(e))) != ""
  {
    ColonsAdd(e.info.project + ":", e.info.target);
    ColonsAdd(e.info.project, ":");
    assert ":"[1..] == "";
    assert Colons(":") == 1;
    ColonsTrim(Pair(e));
  }

  /** With an empty project or target the query `project:target` is found by SQL only. */
  lemma PairQueryDiffers(e: Entry)
    requires PlainKeys(e) && (e.info.project == "" || e.info.target == "")
    ensures SqlSelects(e, Pair(e)) && !MatchesQuery(e, Pair(e))
  {
    SqlByContainment(e, Pair(e));
    ContainsTrimmed(Pair(e));
    PairColons(e);
    NoFieldHolds(e, Pair(e));
    TooManyColons(Label(e.info), Pair(e));
  }

  /** With a configuration the label itself is found in memory only. */
  lemma LabelQueryDiffers(e: Entry)
    requires PlainKeys(e) && e.info.project != "" && e.info.target != "" && e.info.config != ""
    ensures !SqlSelects(e, Label(e.info)) && MatchesQuery(e, Label(e.info))
  {
    var full := Label(e.info);
    SqlByContainment(e, full);
    ContainsTrimmed(full);
    PairColons(e);
    ColonsAdd(Pair(e) + ":", e.info.config);
    ColonsAdd(Pair(e), ":");
    assert ":"[1..] == "";
    assert Colons(":") == 1;
    assert full == Pair(e) + ":" + e.info.config;
    ColonsTrim(full);
    NoFieldHolds(e, full);
    TooManyColons(Pair(e), full);
  }

  /**
    For entries as the cache stores them, with any colons in project and target, the filters
    agree on every query exactly under these conditions.
   */
  lemma FiltersAgreeExactlyWhen(e: Entry)
    requires PlainKeys(e)
    ensures (forall query: string :: Agree(e, query))
            <==> e.info.project != "" && e.info.target != "" && e.info.config == ""
  {
    if e.info.project == "" || e.info.target == "" {
      PairQueryDiffers(e);
      assert !Agree(e, Pair(e));
    } else if e.info.config != "" {
      LabelQueryDiffers(e);
      assert !Agree(e, Label(e.info));
    } else {
      forall query: string ensures Agree(e, query) {
        FiltersAgree(e, query);
      }
    }
  }

  // ---------------------------------------------------------------- what the filters select

  /** The same character, or the same letter of the ASCII alphabet in another case. */
  predicate SameLetter(a: char, b: char) {
    var m, n := a as int, b as int;
    m == n || (65 <= m <= 90 && n == m + 32) || (97 <= m <= 122 && m == n + 32)
  }

  lemma SameLetterFolds(a: char, b: char)
    ensures SameLetter(a, b) <==> LowerChar(a) == LowerChar(b)
  {
    LowerCodes(a);
    LowerCodes(b);
  }

  predicate Reads(u: string, t: string) {
    |u| == |t| && forall k | 0 <= k < |t| :: SameLetter(u[k], t[k])
  }

  predicate ReadsAt(x: string, i: nat, t: string) {
    i + |t| <= |x| && Reads(x[i..i + |t|], t)
  }

  /** `t` stands somewhere in `x`, in whatever case. */
  ghost predicate Occurs(x: string, t: string) {
    exists i: nat :: ReadsAt(x, i, t)
  }

  lemma ReadsFolds(u: string, t: string)
    ensures Reads(u, t) <==> Lower(u) == Lower(t)
  {
    forall k | 0 <= k < |t| && |u| == |t| ensures SameLetter(u[k], t[k]) <==> Lower(u)[k] == Lower(t)[k] {
      SameLetterFolds(u[k], t[k]);
    }
  }

  lemma ReadsAtFolds(x: string, i: nat, t: string)
    requires i + |t| <= |x|
    ensures ReadsAt(x, i, t) <==> Lower(x)[i..i + |t|] == Lower(t)
  {
    LowerAt(x, i, i + |t|);
    ReadsFolds(x[i..i + |t|], t);
  }

  lemma OccursFolds(x: string, t: string)
    ensures Contains(Lower(x), Lower(t)) <==> Occurs(x, t)
  {
    if Contains(Lower(x), Lower(t)) {
      var i := ContainsWhere(Lower(x), Lower(t));
      ReadsAtFolds(x, i, t);
    }
    if i: nat :| ReadsAt(x, i, t) {
      ReadsAtFolds(x, i, t);
      ContainsAt(Lower(x), Lower(t), i);
    }
  }

  /** The in-memory filter: the trimmed query occurs in the hash, project, target, kind or label. */
  lemma MatchesQueryMeans(e: Entry, query: string)
    ensures MatchesQuery(e, query) <==>
            var t := Trim(query);
            || t == "" || Occurs(e.hash, t) || Occurs(e.info.project, t) || Occurs(e.info.target, t)
            || Occurs(e.info.kind, t) || Occurs(Label(e.info), t)
  {
    var t := Trim(query);
    OccursFolds(e.hash, t);
    OccursFolds(e.info.project, t);
    OccursFolds(e.info.target, t);
    OccursFolds(e.info.kind, t);
    OccursFolds(Label(e.info), t);
  }

  /** The SQL filter: the same with `project:target` in place of the label. */
  lemma SqlSelectsMeans(e: Entry, query: string)
    ensures SqlSelects(e, query) <==>
            var t := Trim(query);
            || t == "" || Occurs(e.hash, t) || Occurs(e.info.project, t) || Occurs(e.info.target, t)
            || Occurs(e.info.kind, t) || Occurs(e.info.project + ":" + e.info.target, t)
  {
    var t := Trim(query);
    SqlByContainment(e, query);
    OccursFolds(e.hash, t);
    OccursFolds(e.info.project, t);
    OccursFolds(e.info.target, t);
    OccursFolds(e.info.kind, t);
    OccursFolds(Pair(e), t);
  }

  /** LIKE itself: a percent sign stands for anything, an underscore for one character, other text for itself. */
  lemma {:induction false} LikeMeans(p: string, s: string, t: string)
    requires forall i | 0 <= i < |p| :: p[i] != '%' && p[i] != '_' && p[i] != '\\'
    ensures Like(p, s) <==> Reads(s, p)
    ensures Like(p + "%", s + t) || !Reads(s, p)
    ensures Like("_", s) <==> |s| == 1
  {
    if p == "" {
      assert p + "%" == "%";
      PercentMatchesAll(s + t);
    } else {
      assert (p + "%")[1..] == p[1..] + "%";
      if s != "" {
        assert (s + t)[1..] == s[1..] + t;
        SameLetterFolds(s[0], p[0]);
        LikeMeans(p[1..], s[1..], t);
        assert Reads(s, p) <==> SameLetter(s[0], p[0]) && Reads(s[1..], p[1..]);
      }
    }
  }
}
