/** The string functions of Go's standard library that the program leans on, over decoded characters. */
module Text {

  /** unicode.IsSpace. */
  predicate IsSpace(c: char) {
    var n := c as int;
    || 9 <= n <= 13 || n == 0x20 || n == 0x85 || n == 0xA0 || n == 0x1680
    || 0x2000 <= n <= 0x200A || n == 0x2028 || n == 0x2029 || n == 0x202F || n == 0x205F || n == 0x3000
  }

  /** In ASCII: tab, line feed, vertical tab, form feed, carriage return and blank. */
  lemma SpaceCodes(c: char)
    requires c as int < 128
    ensures IsSpace(c) <==> c as int in {9, 10, 11, 12, 13, 32}
  {
  }

  predicate AllSpace(s: string) {
    forall i | 0 <= i < |s| :: IsSpace(s[i])
  }

  predicate SpaceFree(s: string) {
    forall i | 0 <= i < |s| :: !IsSpace(s[i])
  }

  // ---------------------------------------------------------------- trimming

  function TrimLeft(s: string): string {
    if s != [] && IsSpace(s[0]) then TrimLeft(s[1..]) else s
  }

  function TrimRight(s: string): string {
    if s != [] && IsSpace(s[|s| - 1]) then TrimRight(s[..|s| - 1]) else s
  }

  /** strings.TrimSpace. */
  function Trim(s: string): string { TrimRight(TrimLeft(s)) }

  /** A core without outer spaces is what remains of it in any padding. */
  lemma TrimPadded(before: string, core: string, after: string)
    requires AllSpace(before) && AllSpace(after)
    requires core != [] ==> !IsSpace(core[0]) && !IsSpace(core[|core| - 1])
    ensures Trim(before + core + after) == core
  {
    if core == [] {
      assert before + core + after == before + after;
      TrimLeftSpaces(before + after, []);
      assert before + after + [] == before + after;
    } else {
      assert before + core + after == before + (core + after);
      TrimLeftSpaces(before, core + after);
      assert (core + after)[0] == core[0];
      TrimRightSpaces(core, after);
    }
  }

  lemma {:induction false} TrimLeftSpaces(sp: string, s: string)
    requires AllSpace(sp)
    ensures TrimLeft(sp + s) == TrimLeft(s)
  {
    if sp == [] {
      assert sp + s == s;
    } else {
      assert (sp + s)[1..] == sp[1..] + s;
      TrimLeftSpaces(sp[1..], s);
    }
  }

  lemma {:induction false} TrimRightSpaces(s: string, sp: string)
    requires AllSpace(sp)
    ensures TrimRight(s + sp) == TrimRight(s)
  {
    if sp == [] {
      assert s + sp == s;
    } else {
      assert (s + sp)[..|s + sp| - 1] == s + sp[..|sp| - 1];
      TrimRightSpaces(s, sp[..|sp| - 1]);
    }
  }

  /** Trimming removes spaces only, and leaves no outer ones. */
  lemma {:induction false} TrimSplits(s: string) returns (before: string, after: string)
    ensures s == before + Trim(s) + after && AllSpace(before) && AllSpace(after)
    ensures Trim(s) != [] ==> !IsSpace(Trim(s)[0]) && !IsSpace(Trim(s)[|Trim(s)| - 1])
  {
    before := TrimLeftSplit(s);
    after := TrimRightSplit(TrimLeft(s));
    assert s == before + (Trim(s) + after);
    if Trim(s) != [] {
      assert Trim(s)[0] == TrimLeft(s)[0];
    }
  }

  lemma {:induction false} TrimLeftSplit(s: string) returns (before: string)
    ensures s == before + TrimLeft(s) && AllSpace(before)
    ensures TrimLeft(s) != [] ==> !IsSpace(TrimLeft(s)[0])
  {
    before := [];
    if s != [] && IsSpace(s[0]) {
      before := TrimLeftSplit(s[1..]);
      before := [s[0]] + before;
    }
  }

  lemma {:induction false} TrimRightSplit(s: string) returns (after: string)
    ensures s == TrimRight(s) + after && AllSpace(after)
    ensures TrimRight(s) != [] ==> !IsSpace(TrimRight(s)[|TrimRight(s)| - 1])
  {
    after := [];
    if s != [] && IsSpace(s[|s| - 1]) {
      after := TrimRightSplit(s[..|s| - 1]);
      after := after + [s[|s| - 1]];
    }
  }

  // ---------------------------------------------------------------- splitting and joining

  /** strings.Split on a one-character separator. */
  function Split(s: string, sep: char): (parts: seq<string>)
    ensures |parts| > 0
  {
    if s == [] then [[]]
    else
      var rest := Split(s[1..], sep);
      if s[0] == sep then [[]] + rest
      else [[s[0]] + rest[0]] + rest[1..]
  }

  /** strings.Join with a one-character separator. */
  function Join(parts: seq<string>, sep: char): string {
    if parts == [] then []
    else if |parts| == 1 then parts[0]
    else parts[0] + [sep] + Join(parts[1..], sep)
  }

  lemma {:induction false} SplitNone(s: string, sep: char)
    requires sep !in s
    ensures Split(s, sep) == [s]
  {
    if s != [] {
      SplitNone(s[1..], sep);
      assert [s[0]] + s[1..] == s;
    }
  }

  lemma {:induction false} SplitConcat(a: string, sep: char, b: string)
    ensures Split(a + [sep] + b, sep) == Split(a, sep) + Split(b, sep)
  {
    var s := a + [sep] + b;
    if a == [] {
      assert s[1..] == b;
    } else {
      assert s[1..] == a[1..] + [sep] + b;
      SplitConcat(a[1..], sep, b);
    }
  }

  /** Joining what Split produced gives the string back, and no part holds the separator. */
  lemma {:induction false} JoinSplit(s: string, sep: char)
    ensures Join(Split(s, sep), sep) == s
    ensures forall i | 0 <= i < |Split(s, sep)| :: sep !in Split(s, sep)[i]
  {
    if s != [] {
      JoinSplit(s[1..], sep);
      var rest := Split(s[1..], sep);
      if s[0] == sep {
        assert ([[]] + rest)[1..] == rest;
      } else {
        var parts := [[s[0]] + rest[0]] + rest[1..];
        assert parts[1..] == rest[1..];
      }
    }
  }

  // ---------------------------------------------------------------- fields

  function WordLength(s: string): (n: nat)
    ensures n <= |s| && SpaceFree(s[..n])
    ensures s != [] && !IsSpace(s[0]) ==> n > 0
    ensures n < |s| ==> IsSpace(s[n])
  {
    if s == [] || IsSpace(s[0]) then 0 else 1 + WordLength(s[1..])
  }

  /** strings.Fields: the words between stretches of white space. */
  function Fields(s: string): seq<string>
    decreases |s|
  {
    if s == [] then []
    else if IsSpace(s[0]) then Fields(s[1..])
    else [s[..WordLength(s)]] + Fields(s[WordLength(s)..])
  }

  predicate IsWord(w: string) { w != [] && SpaceFree(w) }

  predicate AreWords(ws: seq<string>) {
    forall i | 0 <= i < |ws| :: IsWord(ws[i])
  }

  lemma {:induction false} FieldsAreWords(s: string)
    ensures AreWords(Fields(s))
    decreases |s|
  {
    if s != [] {
      if IsSpace(s[0]) {
        FieldsAreWords(s[1..]);
      } else {
        FieldsAreWords(s[WordLength(s)..]);
      }
    }
  }

  lemma {:induction false} WordThenSpace(w: string, rest: string)
    requires SpaceFree(w) && (rest != [] ==> IsSpace(rest[0]))
    ensures WordLength(w + rest) == |w|
  {
    if w == [] {
      assert w + rest == rest;
    } else {
      assert (w + rest)[1..] == w[1..] + rest;
      WordThenSpace(w[1..], rest);
    }
  }

  /** Words joined by single spaces are found again. */
  lemma {:induction false} FieldsOfJoin(ws: seq<string>)
    requires AreWords(ws)
    ensures Fields(Join(ws, ' ')) == ws
  {
    if |ws| == 1 {
      assert IsWord(ws[0]);
      WordThenSpace(ws[0], []);
      assert ws[0] + [] == ws[0];
    } else if |ws| > 1 {
      assert IsWord(ws[0]);
      var rest := [' '] + Join(ws[1..], ' ');
      var s := ws[0] + rest;
      assert Join(ws, ' ') == s;
      WordThenSpace(ws[0], rest);
      assert s[..|ws[0]|] == ws[0] && s[|ws[0]|..] == rest;
      assert rest[1..] == Join(ws[1..], ' ');
      FieldsOfJoin(ws[1..]);
    }
  }

  /** One word is one field. */
  lemma FieldsOfWord(w: string)
    requires IsWord(w)
    ensures Fields(w) == [w]
  {
    FieldsOfJoin([w]);
  }

  lemma {:induction false} WordLengthBefore(a: string, c: char, b: string)
    requires IsSpace(c)
    ensures WordLength(a + [c] + b) == WordLength(a)
  {
    if a != [] && !IsSpace(a[0]) {
      assert (a + [c] + b)[1..] == a[1..] + [c] + b;
      WordLengthBefore(a[1..], c, b);
    }
  }

  /** A space anywhere separates what is before it from what is behind it. */
  lemma {:induction false} FieldsAcrossSpace(a: string, c: char, b: string)
    requires IsSpace(c)
    ensures Fields(a + [c] + b) == Fields(a) + Fields(b)
    decreases |a|
  {
    var s := a + [c] + b;
    if a == [] {
      assert s[1..] == b;
    } else if IsSpace(a[0]) {
      assert s[1..] == a[1..] + [c] + b;
      FieldsAcrossSpace(a[1..], c, b);
    } else {
      var n := WordLength(a);
      WordLengthBefore(a, c, b);
      assert s[..n] == a[..n] && s[n..] == a[n..] + [c] + b;
      FieldsAcrossSpace(a[n..], c, b);
    }
  }

  /** A visible character occurs in a text exactly when it occurs in one of its words. */
  lemma {:induction false} CharInFields(s: string, c: char)
    requires !IsSpace(c)
    ensures c in s <==> exists i :: 0 <= i < |Fields(s)| && c in Fields(s)[i]
    decreases |s|
  {
    if s != [] {
      var n := if IsSpace(s[0]) then 1 else WordLength(s);
      assert s == s[..n] + s[n..];
      CharInFields(s[n..], c);
      var rest := Fields(s[n..]);
      if IsSpace(s[0]) {
        assert s[0] != c && Fields(s) == rest;
      } else {
        assert Fields(s) == [s[..n]] + rest;
        if c in s[..n] {
          assert c in Fields(s)[0];
        }
        if i :| 0 <= i < |rest| && c in rest[i] {
          assert c in Fields(s)[i + 1];
        }
        if i :| 0 <= i < |Fields(s)| && c in Fields(s)[i] {
          assert i == 0 || c in rest[i - 1];
        }
      }
    }
  }

  lemma {:induction false} CharInJoin(ws: seq<string>, c: char)
    requires c != ' '
    ensures c in Join(ws, ' ') <==> exists i :: 0 <= i < |ws| && c in ws[i]
  {
    if |ws| > 1 {
      CharInJoin(ws[1..], c);
      assert forall i | 0 <= i < |ws| - 1 :: ws[1..][i] == ws[i + 1];
    }
  }

  // ---------------------------------------------------------------- containment and case

  lemma SliceOfSlice(s: string, i: nat, j: nat, k: nat, m: nat)
    requires i <= j <= |s| && k <= m <= j - i
    ensures s[i..j][k..m] == s[i + k..i + m]
  {
    var inner, outer := s[i..j][k..m], s[i + k..i + m];
    forall x | 0 <= x < m - k ensures inner[x] == outer[x] {
      assert inner[x] == s[i..j][k + x] == s[i + (k + x)];
    }
  }

  predicate Contains(s: string, q: string)
    decreases |s|
  {
    q <= s || (s != [] && Contains(s[1..], q))
  }

  lemma {:induction false} ContainsAt(s: string, q: string, i: nat)
    requires i + |q| <= |s| && s[i..i + |q|] == q
    ensures Contains(s, q)
  {
    if i > 0 {
      assert s[1..][i - 1..i - 1 + |q|] == q;
      ContainsAt(s[1..], q, i - 1);
    }
  }

  lemma {:induction false} ContainsWhere(s: string, q: string) returns (i: nat)
    requires Contains(s, q)
    ensures i + |q| <= |s| && s[i..i + |q|] == q
  {
    if q <= s {
      i := 0;
    } else {
      i := ContainsWhere(s[1..], q);
      i := i + 1;
    }
  }

  /** Lower case for ASCII; other characters are left alone. */
  function LowerChar(c: char): char {
    if 'A' <= c <= 'Z' then (c as int + 32) as char else c
  }

  /** By ASCII code: 65 to 90 move up by 32, everything else stays. */
  lemma LowerCodes(c: char)
    ensures 65 <= c as int <= 90 ==> LowerChar(c) as int == c as int + 32
    ensures c as int < 65 || c as int > 90 ==> LowerChar(c) == c
  {
  }

  function Lower(s: string): (r: string)
    ensures |r| == |s| && forall i | 0 <= i < |s| :: r[i] == LowerChar(s[i])
  {
    seq(|s|, i requires 0 <= i < |s| => LowerChar(s[i]))
  }

  // ---------------------------------------------------------------- decimal numbers

  function Digit(d: int): char
    requires 0 <= d < 10
  {
    ('0' as int + d) as char
  }

  predicate IsDigit(c: char) { '0' <= c <= '9' }

  function Decimal(n: nat): (s: string)
    ensures |s| > 0 && forall i | 0 <= i < |s| :: IsDigit(s[i])
  {
    if n < 10 then [Digit(n)] else Decimal(n / 10) + [Digit(n % 10)]
  }

  /** The number that decimal digits denote, read from the left. */
  function Denoted(s: string): int {
    if s == [] then 0 else 10 * Denoted(s[..|s| - 1]) + (s[|s| - 1] as int - 48)
  }

  lemma {:induction false} DecimalDenotes(n: nat)
    ensures Denoted(Decimal(n)) == n
    ensures forall i | 0 <= i < |Decimal(n)| :: 48 <= Decimal(n)[i] as int <= 57
    ensures Decimal(n)[0] == '0' ==> n == 0 && |Decimal(n)| == 1
  {
    var s := Decimal(n);
    if n < 10 {
      assert s[..0] == [];
    } else {
      DecimalDenotes(n / 10);
      assert s[..|s| - 1] == Decimal(n / 10);
    }
  }

  /** The %d verb. */
  function Formatted(n: int): string {
    if n < 0 then "-" + Decimal(-n) else Decimal(n)
  }

  lemma {:induction false} DecimalInjective(a: nat, b: nat)
    requires Decimal(a) == Decimal(b)
    ensures a == b
    decreases a + b
  {
    var s, t := Decimal(a), Decimal(b);
    if a >= 10 && b >= 10 {
      assert Decimal(a / 10) == s[..|s| - 1] && Decimal(b / 10) == t[..|t| - 1];
      assert Digit(a % 10) == s[|s| - 1] && Digit(b % 10) == t[|t| - 1];
      DecimalInjective(a / 10, b / 10);
    } else if a < 10 && b < 10 {
      assert s[0] == t[0];
    }
  }

  lemma FormattedInjective(a: int, b: int)
    requires Formatted(a) == Formatted(b)
    ensures a == b
  {
    var s, t := Formatted(a), Formatted(b);
    assert s[0] == t[0];
    if a < 0 {
      assert b < 0;
      assert s[1..] == Decimal(-a) && t[1..] == Decimal(-b);
      DecimalInjective(-a, -b);
    } else {
      assert b >= 0;
      DecimalInjective(a, b);
    }
  }
}
