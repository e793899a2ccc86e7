/**
  Entity tags of the poll hub and the If-None-Match test (internal/longpoll/longpoll.go)
  against the weak comparison of section 8.8.3.2 of RFC 9110.
 */
module Etag {
  import opened Wrappers
  import opened Text

  // ---------------------------------------------------------------- the program

  function Inner(version: nat, unix: int): string { Decimal(version) + "-" + Formatted(unix) }

  /** The tag snapshotLocked formats. */
  function ServerTag(version: nat, unix: int): string { "\"" + Inner(version, unix) + "\"" }

  /** strings.TrimPrefix(s, "W/"). */
  function DropWeak(s: string): string { if "W/" <= s then s[2..] else s }

  function Key(part: string): string { DropWeak(Trim(part)) }

  /** Some comma-separated part of `s` is `tag` up to padding and weakness. */
  predicate HasPart(s: string, tag: string) {
    exists i :: 0 <= i < |Split(s, ',')| && Key(Split(s, ',')[i]) == tag
  }

  predicate Matches(header: string, serverTag: string) {
    Trim(header) == "*" || HasPart(Trim(header), DropWeak(Trim(serverTag)))
  }

  method EtagMatches(header: string, serverTag: string) returns (r: bool)
    ensures r == Matches(header, serverTag)
  {
    var clientHeader := Trim(header);
    if clientHeader == "*" {
      return true;
    }
    var serverTrimmed := DropWeak(Trim(serverTag));
    var parts := Split(clientHeader, ',');
    for i := 0 to |parts|
      invariant forall k | 0 <= k < i :: Key(parts[k]) != serverTrimmed
    {
      if DropWeak(Trim(parts[i])) == serverTrimmed {
        return true;
      }
    }
    return false;
  }

  // ---------------------------------------------------------------- the standard

  /** entity-tag = [ "W/" ] DQUOTE *etagc DQUOTE (section 8.8.3). */
  datatype EntityTag = EntityTag(weak: bool, body: string) {
    predicate Valid() { forall i | 0 <= i < |body| :: IsEtagc(body[i]) }

    function Text(): string { (if weak then "W/" else "") + "\"" + body + "\"" }
  }

  predicate IsEtagc(c: char) {
    var n := c as int;
    n == 0x21 || 0x23 <= n <= 0x7E || n >= 0x80
  }

  predicate WeakMatch(a: EntityTag, b: EntityTag) { a.body == b.body }

  /** A list element with the optional whitespace around it; elements may be empty (section 5.6.1). */
  datatype Element = Element(before: string, tag: Option<EntityTag>, after: string) {
    predicate Valid() { IsOws(before) && IsOws(after) && (tag.Some? ==> tag.value.Valid()) }

    function Text(): string { before + (if tag.Some? then tag.value.Text() else "") + after }
  }

  predicate IsOws(s: string) {
    forall i | 0 <= i < |s| :: s[i] == ' ' || s[i] == '\t'
  }

  /** If-None-Match = "*" / #entity-tag (section 13.1.2). */
  datatype IfNoneMatch = Any(before: string, after: string) | Tags(elements: seq<Element>) {
    predicate Valid() {
      match this
      case Any(b, a) => IsOws(b) && IsOws(a)
      case Tags(es) => |es| > 0 && forall i | 0 <= i < |es| :: es[i].Valid()
    }

    function Text(): string {
      match this
      case Any(b, a) => b + "*" + a
      case Tags(es) => ListText(es)
    }

    /** A current representation exists, so "*" matches. */
    predicate Holds(current: EntityTag) {
      match this
      case Any(_, _) => true
      case Tags(es) => SomeTagMatches(es, current)
    }
  }

  predicate SomeTagMatches(es: seq<Element>, current: EntityTag) {
    exists i :: 0 <= i < |es| && es[i].tag.Some? && WeakMatch(es[i].tag.value, current)
  }

  function ListText(es: seq<Element>): string {
    if es == [] then []
    else if |es| == 1 then es[0].Text()
    else es[0].Text() + [','] + ListText(es[1..])
  }

  // ---------------------------------------------------------------- padding does not matter

  lemma {:induction false} SplitPadLeft(sp: string, s: string)
    requires AllSpace(sp)
    ensures Split(sp + s, ',') == [sp + Split(s, ',')[0]] + Split(s, ',')[1..]
  {
    if sp == [] {
      assert sp + s == s;
      assert sp + Split(s, ',')[0] == Split(s, ',')[0];
    } else {
      assert (sp + s)[1..] == sp[1..] + s;
      SplitPadLeft(sp[1..], s);
      assert [sp[0]] + (sp[1..] + Split(s, ',')[0]) == sp + Split(s, ',')[0];
    }
  }

  lemma {:induction false} SplitPadRight(s: string, sp: string)
    requires AllSpace(sp)
    ensures var parts := Split(s, ',');
            Split(s + sp, ',') == parts[|parts| - 1 := parts[|parts| - 1] + sp]
  {
    var parts := Split(s, ',');
    if s == [] {
      assert s + sp == sp;
      SplitNone(sp, ',');
      assert Split(s + sp, ',') == [[] + sp];
    } else {
      assert (s + sp)[1..] == s[1..] + sp;
      SplitPadRight(s[1..], sp);
      if s[0] != ',' {
        FirstGrows(s[0], Split(s[1..], ','), sp);
      }
    }
  }

  /** Extending the last part and prepending to the first do not interfere. */
  lemma FirstGrows(c: char, parts: seq<string>, sp: string)
    requires parts != []
    ensures var n := |parts| - 1;
            var q := [[c] + parts[0]] + parts[1..];
            var u := parts[n := parts[n] + sp];
            [[c] + u[0]] + u[1..] == q[n := q[n] + sp]
  {
    if |parts| == 1 {
      assert [c] + (parts[0] + sp) == [c] + parts[0] + sp;
    }
  }

  lemma TrimPad(b: string, s: string, a: string)
    requires AllSpace(b) && AllSpace(a)
    ensures Trim(b + s + a) == Trim(s)
  {
    var b', a' := TrimSplits(s);
    assert b + s + a == (b + b') + Trim(s) + (a' + a);
    TrimPadded(b + b', Trim(s), a' + a);
  }

  lemma PartTrimmedLeft(sp: string, s: string, tag: string)
    requires AllSpace(sp)
    ensures HasPart(sp + s, tag) == HasPart(s, tag)
  {
    SplitPadLeft(sp, s);
    var parts, padded := Split(s, ','), Split(sp + s, ',');
    TrimPad(sp, parts[0], []);
    assert sp + parts[0] + [] == sp + parts[0];
    assert forall i | 0 <= i < |parts| :: Key(padded[i]) == Key(parts[i]);
  }

  lemma PartTrimmedRight(s: string, sp: string, tag: string)
    requires AllSpace(sp)
    ensures HasPart(s + sp, tag) == HasPart(s, tag)
  {
    SplitPadRight(s, sp);
    var parts, padded := Split(s, ','), Split(s + sp, ',');
    TrimPad([], parts[|parts| - 1], sp);
    assert [] + parts[|parts| - 1] + sp == parts[|parts| - 1] + sp;
    assert forall i | 0 <= i < |parts| :: Key(padded[i]) == Key(parts[i]);
  }

  lemma TrimKeepsParts(s: string, tag: string)
    ensures HasPart(Trim(s), tag) == HasPart(s, tag)
  {
    var b, a := TrimSplits(s);
    PartTrimmedRight(b + Trim(s), a, tag);
    PartTrimmedLeft(b, Trim(s), tag);
  }

  lemma PartOfList(a: string, b: string, tag: string)
    ensures HasPart(a + [','] + b, tag) == (HasPart(a, tag) || HasPart(b, tag))
  {
    SplitConcat(a, ',', b);
    var p, q, all := Split(a, ','), Split(b, ','), Split(a + [','] + b, ',');
    assert forall i | 0 <= i < |p| :: all[i] == p[i];
    assert forall i | 0 <= i < |q| :: all[|p| + i] == q[i];
  }

  // ---------------------------------------------------------------- commas inside a tag

  lemma {:induction false} PartHasFewerQuotes(s: string, i: nat)
    requires i < |Split(s, ',')|
    ensures multiset(Split(s, ',')[i])['"'] <= multiset(s)['"']
  {
    if s != [] {
      assert s == [s[0]] + s[1..];
      if s[0] == ',' {
        if i > 0 { PartHasFewerQuotes(s[1..], i - 1); }
      } else {
        PartHasFewerQuotes(s[1..], i);
      }
    }
  }

  lemma KeyHasFewerQuotes(part: string)
    ensures multiset(Key(part))['"'] <= multiset(part)['"']
  {
    var b, a := TrimSplits(part);
    if "W/" <= Trim(part) {
      assert Trim(part) == Trim(part)[..2] + Trim(part)[2..];
    }
  }

  /** A text with a single quote has no part that is a quoted tag. */
  lemma OneQuoteNoTag(s: string, tag: string)
    requires multiset(s)['"'] <= 1 && multiset(tag)['"'] == 2
    ensures !HasPart(s, tag)
  {
    forall i | 0 <= i < |Split(s, ',')| ensures Key(Split(s, ',')[i]) != tag {
      PartHasFewerQuotes(s, i);
      KeyHasFewerQuotes(Split(s, ',')[i]);
    }
  }

  lemma {:induction false} NoQuoteInside(body: string)
    requires forall i | 0 <= i < |body| :: IsEtagc(body[i])
    ensures multiset(body)['"'] == 0
  {
  }

  /** A quoted tag is its own key: nothing is trimmed from it. */
  lemma QuotedIsKey(body: string)
    ensures Key("\"" + body + "\"") == "\"" + body + "\""
  {
    var t := "\"" + body + "\"";
    assert t[0] == '"' && t[|t| - 1] == '"';
    TrimPadded([], t, []);
    assert [] + t + [] == t;
  }

  /** Digits and hyphens. */
  predicate Plain(s: string) {
    forall i | 0 <= i < |s| :: IsDigit(s[i]) || s[i] == '-'
  }

  lemma PlainConcat(a: string, b: string)
    requires Plain(a) && Plain(b)
    ensures Plain(a + b)
  {
    var s := a + b;
    forall i | 0 <= i < |s| ensures IsDigit(s[i]) || s[i] == '-' {
      assert s[i] == if i < |a| then a[i] else b[i - |a|];
    }
  }

  lemma PlainIsEtagc(s: string)
    requires Plain(s)
    ensures ',' !in s && EntityTag(false, s).Valid() && multiset(s)['"'] == 0
  {
    NoQuoteInside(s);
  }

  lemma InnerShape(version: nat, unix: int)
    ensures var inner := Inner(version, unix);
            && ',' !in inner && EntityTag(false, inner).Valid() && multiset(inner)['"'] == 0
  {
    assert Plain(Decimal(version)) && Plain("-");
    if unix < 0 {
      assert Plain(Decimal(-unix));
      PlainConcat("-", Decimal(-unix));
    } else {
      assert Plain(Decimal(unix));
    }
    PlainConcat(Decimal(version), "-");
    PlainConcat(Decimal(version) + "-", Formatted(unix));
    PlainIsEtagc(Inner(version, unix));
  }

  /** Taking a quoted pair apart. */
  lemma QuotedPair(a: string, b: string, tag: string)
    requires tag == "\"" + (a + "-" + b) + "\""
    ensures var n := |a|;
            && |tag| == n + |b| + 3 && tag[0] == '"' && tag[n + 1] == '-' && tag[|tag| - 1] == '"'
            && tag[1..n + 1] == a && tag[n + 2..|tag| - 1] == b
  {
  }

  /** The hub's tag reads: a quote, the version, a hyphen, the Unix time, a quote. */
  lemma ServerTagReads(version: nat, unix: nat, n: nat)
    requires n == |Decimal(version)|
    ensures var tag := ServerTag(version, unix);
            && |tag| > n + 3 && tag[0] == '"' && tag[n + 1] == '-' && tag[|tag| - 1] == '"'
            && Denoted(tag[1..n + 1]) == version && Denoted(tag[n + 2..|tag| - 1]) == unix
  {
    QuotedPair(Decimal(version), Decimal(unix), ServerTag(version, unix));
    DecimalDenotes(version);
    DecimalDenotes(unix);
  }

  lemma ServerTagShape(version: nat, unix: int)
    ensures var t := ServerTag(version, unix);
            multiset(t)['"'] == 2 && DropWeak(Trim(t)) == t
  {
    InnerShape(version, unix);
    QuotedIsKey(Inner(version, unix));
  }

  /** What stands around the comma-free middle of a tagged element: one quote on either side. */
  function Opening(e: Element): string
    requires e.tag.Some?
  {
    e.before + (if e.tag.value.weak then "W/" else "") + "\""
  }

  lemma ElementShape(e: Element)
    requires e.Valid() && e.tag.Some?
    ensures e.Text() == Opening(e) + e.tag.value.body + ("\"" + e.after)
    ensures multiset(Opening(e))['"'] == 1 && multiset("\"" + e.after)['"'] == 1
    ensures multiset(e.tag.value.body)['"'] == 0
  {
    NoQuoteInOws(e.before);
    NoQuoteInOws(e.after);
    NoQuoteInside(e.tag.value.body);
    assert multiset("W/")['"'] == 0;
  }

  /** A tag that contains a comma falls apart into parts none of which can match. */
  lemma CommaBreaksTag(left: string, body: string, right: string, server: string)
    requires ',' in body && multiset(body)['"'] == 0
    requires multiset(left)['"'] == 1 && multiset(right)['"'] == 1 && multiset(server)['"'] == 2
    ensures !HasPart(left + body + right, server)
  {
    var k :| 0 <= k < |body| && body[k] == ',';
    var x, y := body[..k], body[k + 1..];
    assert body == x + [','] + y;
    assert left + body + right == (left + x) + [','] + (y + right);
    PartOfList(left + x, y + right, server);
    OneQuoteNoTag(left + x, server);
    OneQuoteNoTag(y + right, server);
  }

  /** A tag without a comma is one part. */
  lemma PlainTagIsPart(e: Element, server: string)
    requires e.Valid() && e.tag.Some? && ',' !in e.tag.value.body
    ensures HasPart(e.Text(), server) <==> server == "\"" + e.tag.value.body + "\""
  {
    var tag := e.tag.value;
    var quoted := "\"" + tag.body + "\"";
    NoQuoteInOws(e.before);
    NoQuoteInOws(e.after);
    var text := tag.Text();
    assert text == if tag.weak then "W/" + quoted else quoted;
    assert ',' !in text;
    assert e.Text() == e.before + text + e.after;
    SplitNone(e.Text(), ',');
    TrimPadded(e.before, text, e.after);
    assert DropWeak(text) == quoted by {
      if tag.weak { assert ("W/" + quoted)[2..] == quoted; }
    }
    assert Key(Split(e.Text(), ',')[0]) == quoted;
  }

  lemma EmptyElementHasNoPart(e: Element, server: string)
    requires e.Valid() && e.tag.None? && multiset(server)['"'] == 2
    ensures !HasPart(e.Text(), server)
  {
    NoQuoteInOws(e.before);
    NoQuoteInOws(e.after);
    assert e.Text() == e.before + e.after;
    OneQuoteNoTag(e.before + e.after, server);
  }

  /** One tag against the server's, whatever commas it contains. */
  lemma TaggedElementMatches(e: Element, inner: string)
    requires e.Valid() && e.tag.Some? && ',' !in inner
    requires multiset("\"" + inner + "\"")['"'] == 2
    ensures HasPart(e.Text(), "\"" + inner + "\"") <==> e.tag.value.body == inner
  {
    if ',' in e.tag.value.body {
      ElementShape(e);
      CommaBreaksTag(Opening(e), e.tag.value.body, "\"" + e.after, "\"" + inner + "\"");
    } else {
      PlainTagIsPart(e, "\"" + inner + "\"");
      if "\"" + e.tag.value.body + "\"" == "\"" + inner + "\"" {
        QuotedInjective(e.tag.value.body, inner);
      }
    }
  }

  lemma ElementMatches(e: Element, version: nat, unix: int)
    requires e.Valid()
    ensures HasPart(e.Text(), ServerTag(version, unix)) <==>
            e.tag.Some? && e.tag.value.body == Inner(version, unix)
  {
    ServerTagShape(version, unix);
    InnerShape(version, unix);
    if e.tag.None? {
      EmptyElementHasNoPart(e, ServerTag(version, unix));
    } else {
      TaggedElementMatches(e, Inner(version, unix));
    }
  }

  lemma QuotedInjective(a: string, b: string)
    requires "\"" + a + "\"" == "\"" + b + "\""
    ensures a == b
  {
    var s, t := "\"" + a + "\"", "\"" + b + "\"";
    assert s[1..|s| - 1] == a && t[1..|t| - 1] == b;
  }

  lemma NoQuoteInOws(s: string)
    requires IsOws(s)
    ensures multiset(s)['"'] == 0 && AllSpace(s) && ',' !in s && '*' !in s
  {
  }

  lemma {:induction false} ListMatches(es: seq<Element>, version: nat, unix: int)
    requires |es| > 0 && forall i | 0 <= i < |es| :: es[i].Valid()
    ensures HasPart(ListText(es), ServerTag(version, unix)) <==>
            SomeTagMatches(es, EntityTag(false, Inner(version, unix)))
  {
    var current := EntityTag(false, Inner(version, unix));
    ElementMatches(es[0], version, unix);
    if |es| > 1 {
      ListMatches(es[1..], version, unix);
      PartOfList(es[0].Text(), ListText(es[1..]), ServerTag(version, unix));
      assert SomeTagMatches(es, current) <==>
             (es[0].tag.Some? && WeakMatch(es[0].tag.value, current)) || SomeTagMatches(es[1..], current) by {
        if SomeTagMatches(es, current) {
          var i :| 0 <= i < |es| && es[i].tag.Some? && WeakMatch(es[i].tag.value, current);
          if i > 0 { assert es[1..][i - 1] == es[i]; }
        }
      }
    }
  }

  // ---------------------------------------------------------------- a list is never "*"

  lemma {:induction false} StarOnlyInTags(es: seq<Element>)
    requires |es| > 0 && forall i | 0 <= i < |es| :: es[i].Valid()
    ensures '"' in ListText(es) || '*' !in ListText(es)
  {
    NoQuoteInOws(es[0].before);
    NoQuoteInOws(es[0].after);
    if es[0].tag.Some? {
      var text := es[0].Text();
      var k := |es[0].before| + if es[0].tag.value.weak then 2 else 0;
      assert text[k] == '"';
      assert ListText(es)[k] == '"';
    } else if |es| > 1 {
      StarOnlyInTags(es[1..]);
    }
  }

  lemma ListIsNotStar(es: seq<Element>)
    requires |es| > 0 && forall i | 0 <= i < |es| :: es[i].Valid()
    ensures Trim(ListText(es)) != "*"
  {
    var b, a := TrimSplits(ListText(es));
    if Trim(ListText(es)) == "*" {
      StarAlone(b, a, ListText(es));
      StarOnlyInTags(es);
    }
  }

  lemma StarAlone(b: string, a: string, s: string)
    requires AllSpace(b) && AllSpace(a) && s == b + "*" + a
    ensures '*' in s && '"' !in s
  {
    assert s[|b|] == '*';
  }

  /**
    For every well-formed field value the naive split decides exactly the weak comparison
    with the hub's current tag, body tags that contain commas included.
   */
  lemma DecidesWeakComparison(field: IfNoneMatch, version: nat, unix: int)
    requires field.Valid()
    ensures Matches(field.Text(), ServerTag(version, unix)) <==>
            field.Holds(EntityTag(false, Inner(version, unix)))
  {
    ServerTagShape(version, unix);
    match field
    case Any(b, a) =>
      NoQuoteInOws(b);
      NoQuoteInOws(a);
      TrimPadded(b, "*", a);
    case Tags(es) =>
      ListIsNotStar(es);
      TrimKeepsParts(ListText(es), ServerTag(version, unix));
      ListMatches(es, version, unix);
  }

  // ---------------------------------------------------------------- tags and versions

  lemma InnerInjective(v: nat, u: int, v': nat, u': int)
    requires Inner(v, u) == Inner(v', u')
    ensures v == v' && u == u'
  {
    var s := Inner(v, u);
    var n, n' := |Decimal(v)|, |Decimal(v')|;
    assert s[n] == '-' && s[n'] == '-';
    assert forall i | 0 <= i < n :: IsDigit(s[i]) by { assert s[..n] == Decimal(v); }
    assert forall i | 0 <= i < n' :: IsDigit(s[i]) by { assert s[..n'] == Decimal(v'); }
    assert n == n';
    assert Decimal(v) == s[..n] == Decimal(v');
    assert Formatted(u) == s[n + 1..] == Formatted(u');
    DecimalInjective(v, v');
    FormattedInjective(u, u');
  }

  /** Sending back a tag of the hub matches exactly while version and timestamp are the same. */
  lemma OwnTagMatches(v: nat, u: int, v': nat, u': int)
    ensures Matches(ServerTag(v, u), ServerTag(v', u')) <==> v == v' && u == u'
  {
    InnerShape(v, u);
    var es := [Element("", Some(EntityTag(false, Inner(v, u))), "")];
    OwnTagText(v, u);
    DecidesWeakComparison(Tags(es), v', u');
    var current := EntityTag(false, Inner(v', u'));
    assert SomeTagMatches(es, current) <==> WeakMatch(es[0].tag.value, current);
    if Inner(v, u) == Inner(v', u') {
      InnerInjective(v, u, v', u');
    }
  }

  lemma OwnTagText(v: nat, u: int)
    ensures Tags([Element("", Some(EntityTag(false, Inner(v, u))), "")]).Text() == ServerTag(v, u)
  {
    PlainText(Inner(v, u));
  }

  lemma PlainText(body: string)
    ensures Element("", Some(EntityTag(false, body)), "").Text() == "\"" + body + "\""
  {
    var t := "\"" + body + "\"";
    assert "" + t + "" == t;
    assert EntityTag(false, body).Text() == t;
  }
}
