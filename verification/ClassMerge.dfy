/** The shims around the class merge (utils/shadcn-templ.go): marker translation and order restoration. */
module ClassMerge {
  import opened Text

  // ---------------------------------------------------------------- the important marker

  /** Bracket depth before position `i`; unmatched closing brackets make it negative. */
  function Depth(s: string, i: nat): int
    requires i <= |s|
  {
    if i == 0 then 0
    else Depth(s, i - 1) + (if s[i - 1] == '[' then 1 else if s[i - 1] == ']' then -1 else 0)
  }

  /** A variant separator outside all brackets. */
  predicate TopColon(s: string, i: int) {
    0 <= i < |s| && s[i] == ':' && Depth(s, i) == 0
  }

  function LastBefore(s: string, n: nat): (i: int)
    requires n <= |s|
    ensures -1 <= i < n && (i == -1 || TopColon(s, i))
    ensures forall k | i < k < n :: !TopColon(s, k)
  {
    if n == 0 then -1
    else if TopColon(s, n - 1) then n - 1
    else LastBefore(s, n - 1)
  }

  function LastTopColon(s: string): int { LastBefore(s, |s|) }

  method LastTopLevelColon(s: string) returns (last: int)
    ensures last == LastTopColon(s)
    ensures last == -1 || TopColon(s, last)
    ensures forall k | last < k < |s| :: !TopColon(s, k)
  {
    var depth := 0;
    last := -1;
    for i := 0 to |s|
      invariant depth == Depth(s, i)
      invariant last == LastBefore(s, i)
    {
      if s[i] == '[' {
        depth := depth + 1;
      } else if s[i] == ']' {
        depth := depth - 1;
      } else if s[i] == ':' {
        if depth == 0 {
          last := i;
        }
      }
    }
  }

  predicate EndsWithBang(t: string) { t != "" && t[|t| - 1] == '!' }

  predicate BangAfterColon(t: string) {
    LastTopColon(t) + 1 < |t| && t[LastTopColon(t) + 1] == '!'
  }

  function InsertBang(t: string, n: nat): (r: string)
    requires n <= |t|
    ensures |r| == |t| + 1
  {
    t[..n] + "!" + t[n..]
  }

  lemma InsertedChar(t: string, n: nat, k: nat)
    requires n <= |t| && k <= |t|
    ensures InsertBang(t, n)[k] == if k < n then t[k] else if k == n then '!' else t[k - 1]
  {
  }

  /** Drops the character at `n` and appends a marker. */
  function BangToEnd(t: string, n: nat): (r: string)
    requires n < |t|
    ensures |r| == |t| && r[|t| - 1] == '!'
  {
    t[..n] + t[n + 1..] + "!"
  }

  /** A trailing marker moves in front of the base utility. */
  function ToV3(t: string): string {
    if !EndsWithBang(t) then t
    else
      var base := t[..|t| - 1];
      InsertBang(base, LastTopColon(base) + 1)
  }

  /** A marker in front of the base utility moves to the end. */
  function ToV4(t: string): string {
    if !BangAfterColon(t) then t else BangToEnd(t, LastTopColon(t) + 1)
  }

  /** The marker itself has no part in the bracket count. */
  lemma {:induction false} DepthAfterInsert(b: string, n: nat, k: nat)
    requires n <= |b| && k <= |b|
    ensures k <= n ==> Depth(InsertBang(b, n), k) == Depth(b, k)
    ensures k >= n ==> Depth(InsertBang(b, n), k + 1) == Depth(b, k)
  {
    if k > 0 {
      DepthAfterInsert(b, n, k - 1);
      InsertedChar(b, n, k - 1);
    }
    InsertedChar(b, n, k);
  }

  lemma InsertedColon(b: string, n: nat, k: nat)
    requires n <= |b| && k <= |b|
    ensures TopColon(InsertBang(b, n), k) == if k < n then TopColon(b, k) else k != n && TopColon(b, k - 1)
  {
    InsertedChar(b, n, k);
    DepthAfterInsert(b, n, if k <= n then k else k - 1);
  }

  /** The last separator is the one with none behind it. */
  lemma {:induction false} LastColonIs(s: string, n: nat, i: int)
    requires n <= |s| && -1 <= i < n && (i == -1 || TopColon(s, i))
    requires forall k | i < k < n :: !TopColon(s, k)
    ensures LastBefore(s, n) == i
  {
    if n > 0 && i < n - 1 {
      assert !TopColon(s, n - 1);
      LastColonIs(s, n - 1, i);
    }
  }

  lemma NoneBehindInserted(b: string, i: int, k: nat)
    requires -1 <= i < k <= |b| && forall j | i < j < |b| :: !TopColon(b, j)
    ensures !TopColon(InsertBang(b, i + 1), k)
  {
    InsertedColon(b, i + 1, k);
    assert k > i + 1 ==> !TopColon(b, k - 1);
  }

  /** Inserting a marker behind the last separator does not move it. */
  lemma InsertKeepsColon(b: string)
    ensures LastTopColon(InsertBang(b, LastTopColon(b) + 1)) == LastTopColon(b)
  {
    var i := LastTopColon(b);
    var s := InsertBang(b, i + 1);
    if i >= 0 {
      InsertedColon(b, i + 1, i);
    }
    forall k | i < k < |s| ensures !TopColon(s, k) {
      NoneBehindInserted(b, i, k);
    }
    LastColonIs(s, |s|, i);
  }

  lemma InsertThenEnd(b: string, n: nat)
    requires n <= |b|
    ensures BangToEnd(InsertBang(b, n), n) == b + "!"
  {
    var s := InsertBang(b, n);
    assert s[..n] == b[..n] && s[n + 1..] == b[n..];
    assert b[..n] + b[n..] == b;
  }

  lemma LeadingMarker(s: string, n: nat)
    requires LastTopColon(s) + 1 == n < |s| && s[n] == '!'
    ensures ToV4(s) == BangToEnd(s, n)
  {
  }

  lemma MarkerMovesBack(base: string)
    ensures ToV4(InsertBang(base, LastTopColon(base) + 1)) == base + "!"
  {
    var n := LastTopColon(base) + 1;
    var s := InsertBang(base, n);
    InsertKeepsColon(base);
    InsertedChar(base, n, n);
    InsertThenEnd(base, n);
    LeadingMarker(s, n);
  }

  lemma TrailingMarkerReturns(t: string)
    requires EndsWithBang(t)
    ensures ToV4(ToV3(t)) == t
  {
    var base := t[..|t| - 1];
    assert t == base + "!";
    MarkerMovesBack(base);
    assert ToV3(t) == InsertBang(base, LastTopColon(base) + 1);
  }

  /** Tokens in v4 form: a trailing marker, or none in front of the base utility. */
  predicate InV4Form(t: string) { EndsWithBang(t) || !BangAfterColon(t) }

  /** There and back is the identity exactly for tokens in v4 form, whatever their brackets. */
  lemma MarkerRoundTrip(t: string)
    ensures ToV4(ToV3(t)) == t <==> InV4Form(t)
  {
    if EndsWithBang(t) {
      TrailingMarkerReturns(t);
    } else if BangAfterColon(t) {
      assert ToV3(t) == t && EndsWithBang(ToV4(t));
    }
  }

  // ---------------------------------------------------------------- where the marker goes

  /** Opening brackets less closing ones. */
  ghost function Balance(s: string): int { (multiset(s)['['] as int) - (multiset(s)[']'] as int) }

  lemma {:induction false} DepthIsBalance(s: string, i: nat)
    requires i <= |s|
    ensures Depth(s, i) == Balance(s[..i])
  {
    if i > 0 {
      DepthIsBalance(s, i - 1);
      assert s[..i] == s[..i - 1] + [s[i - 1]];
    }
  }

  /**
    `variants` ends in the last colon of the token outside brackets, or is empty because
    there is none.
   */
  ghost predicate CutsAtBase(variants: string, base: string) {
    var token := variants + base;
    && (variants != "" ==> variants[|variants| - 1] == ':' && Balance(variants[..|variants| - 1]) == 0)
    && forall i | |variants| <= i < |token| && token[i] == ':' :: Balance(token[..i]) != 0
  }

  lemma CutIsLastColon(variants: string, base: string)
    requires CutsAtBase(variants, base)
    ensures LastTopColon(variants + base) == |variants| - 1
  {
    var token, n := variants + base, |variants|;
    if n > 0 {
      assert token[..n - 1] == variants[..n - 1];
      DepthIsBalance(token, n - 1);
    }
    forall k | n <= k < |token| ensures !TopColon(token, k) {
      DepthIsBalance(token, k);
    }
    LastColonIs(token, |token|, n - 1);
  }

  /** `hover:p-4!` becomes `hover:!p-4` and back; every token without the marker in that place stays. */
  lemma MarkerMoves(variants: string, base: string)
    requires CutsAtBase(variants, base)
    ensures ToV3(variants + base + "!") == variants + "!" + base
    ensures ToV4(variants + "!" + base) == variants + base + "!"
  {
    var token := variants + base;
    CutIsLastColon(variants, base);
    assert (token + "!")[..|token|] == token;
    assert token[..|variants|] == variants && token[|variants|..] == base;
    MarkerMovesBack(token);
  }

  lemma OthersStay(token: string)
    ensures (token == "" || token[|token| - 1] != '!') ==> ToV3(token) == token
    ensures forall variants, base | token == variants + base && CutsAtBase(variants, base) && (base == "" || base[0] != '!') ::
              ToV4(token) == token
  {
    forall variants, base | token == variants + base && CutsAtBase(variants, base) && (base == "" || base[0] != '!')
      ensures ToV4(token) == token
    {
      CutIsLastColon(variants, base);
    }
  }

  // ---------------------------------------------------------------- whole class lists

  function MapWords(ws: seq<string>, f: string -> string): (r: seq<string>)
    ensures |r| == |ws| && forall i | 0 <= i < |ws| :: r[i] == f(ws[i])
  {
    seq(|ws|, i requires 0 <= i < |ws| => f(ws[i]))
  }

  /** twMapTokens: only texts with a marker anywhere are touched. */
  function Mapped(s: string, f: string -> string): string {
    if '!' !in s then s else Join(MapWords(Fields(s), f), ' ')
  }

  method MapTokens(s: string, f: string -> string) returns (r: string)
    ensures r == Mapped(s, f)
    ensures '!' !in s ==> r == s
    ensures '!' in s ==> exists ws ::
              |ws| == |Fields(s)| && (forall i | 0 <= i < |ws| :: ws[i] == f(Fields(s)[i])) && r == Join(ws, ' ')
  {
    if '!' !in s {
      return s;
    }
    var tokens := Fields(s);
    ghost var before := tokens;
    for i := 0 to |tokens|
      invariant |tokens| == |before|
      invariant forall k | 0 <= k < i :: tokens[k] == f(before[k])
      invariant forall k | i <= k < |tokens| :: tokens[k] == before[k]
    {
      tokens := tokens[i := f(tokens[i])];
    }
    assert tokens == MapWords(before, f);
    r := Join(tokens, ' ');
  }

  lemma InsertBangIsWord(base: string, n: nat)
    requires n <= |base| && SpaceFree(base)
    ensures IsWord(InsertBang(base, n)) && '!' in InsertBang(base, n)
  {
    var r := InsertBang(base, n);
    forall k | 0 <= k < |r| ensures !IsSpace(r[k]) {
      InsertedChar(base, n, k);
    }
    InsertedChar(base, n, n);
  }

  lemma ToV3IsWord(t: string)
    requires IsWord(t)
    ensures IsWord(ToV3(t)) && ('!' in ToV3(t) <==> '!' in t)
  {
    if EndsWithBang(t) {
      var base := t[..|t| - 1];
      InsertBangIsWord(base, LastTopColon(base) + 1);
      assert t[|t| - 1] in t;
    }
  }

  lemma BangToEndIsWord(t: string, n: nat)
    requires n < |t| && SpaceFree(t)
    ensures IsWord(BangToEnd(t, n))
  {
    var r := BangToEnd(t, n);
    forall k | 0 <= k < |r| ensures !IsSpace(r[k]) {
      assert r[k] == if k < n then t[k] else if k < |t| - 1 then t[k + 1] else '!';
    }
  }

  lemma ToV4IsWord(t: string)
    requires IsWord(t)
    ensures IsWord(ToV4(t))
  {
    if BangAfterColon(t) {
      BangToEndIsWord(t, LastTopColon(t) + 1);
    }
  }

  predicate HasMark(ws: seq<string>) {
    exists i :: 0 <= i < |ws| && '!' in ws[i]
  }

  lemma V3Words(ws: seq<string>)
    requires AreWords(ws)
    ensures AreWords(MapWords(ws, ToV3)) && (HasMark(MapWords(ws, ToV3)) <==> HasMark(ws))
  {
    var v3 := MapWords(ws, ToV3);
    forall i | 0 <= i < |ws| ensures IsWord(v3[i]) && ('!' in v3[i] <==> '!' in ws[i]) {
      assert IsWord(ws[i]);
      ToV3IsWord(ws[i]);
    }
  }

  lemma V4Words(ws: seq<string>)
    requires AreWords(ws)
    ensures AreWords(MapWords(ws, ToV4))
  {
    var v4 := MapWords(ws, ToV4);
    forall i | 0 <= i < |ws| ensures IsWord(v4[i]) {
      assert IsWord(ws[i]);
      ToV4IsWord(ws[i]);
    }
  }

  /** Mapping a text with a marker maps its words. */
  lemma MappedFields(s: string, f: string -> string)
    requires HasMark(Fields(s)) && AreWords(MapWords(Fields(s), f))
    ensures Fields(Mapped(s, f)) == MapWords(Fields(s), f)
  {
    CharInFields(s, '!');
    FieldsOfJoin(MapWords(Fields(s), f));
  }

  predicate AllInV4Form(ws: seq<string>) {
    forall i | 0 <= i < |ws| :: InV4Form(ws[i])
  }

  lemma WordsRoundTrip(ws: seq<string>)
    ensures MapWords(MapWords(ws, ToV3), ToV4) == ws <==> AllInV4Form(ws)
  {
    var v4 := MapWords(MapWords(ws, ToV3), ToV4);
    forall i | 0 <= i < |ws| ensures v4[i] == ws[i] <==> InV4Form(ws[i]) {
      MarkerRoundTrip(ws[i]);
    }
  }

  /** Up to white space, a class list survives the round trip exactly when all its tokens are in v4 form. */
  lemma ClassListRoundTrip(s: string)
    ensures Fields(Mapped(Mapped(s, ToV3), ToV4)) == Fields(s) <==> AllInV4Form(Fields(s))
  {
    var ws := Fields(s);
    FieldsAreWords(s);
    CharInFields(s, '!');
    if HasMark(ws) {
      V3Words(ws);
      MappedFields(s, ToV3);
      V4Words(MapWords(ws, ToV3));
      MappedFields(Mapped(s, ToV3), ToV4);
      WordsRoundTrip(ws);
    } else {
      assert Mapped(s, ToV3) == s && Mapped(s, ToV4) == s;
      forall i | 0 <= i < |ws| ensures InV4Form(ws[i]) {
        assert '!' !in ws[i];
      }
    }
  }
}
