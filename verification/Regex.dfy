/**
 The shell's regular expressions. `Parse` and `Lang` give a pattern its meaning:
 a sequence of quantified atoms and the set of strings they describe. The
 matcher (the methods below) is a backtracking search on pattern bytes; it is
 proved to find a match exactly when one exists.
 */
module Regex {
  import opened Machine

  type Bytes = seq<Byte>

  const CARET: Byte := 94
  const DOLLAR: Byte := 36
  const STAR: Byte := 42
  const PLUS: Byte := 43
  const QUESTION: Byte := 63
  const DOT: Byte := 46
  const BACKSLASH: Byte := 92
  const OPEN: Byte := 91
  const CLOSE: Byte := 93
  const DASH: Byte := 45

  datatype RegexError = QuantifierWithoutAtom | BadAtom

  datatype Atom = Literal(byte: Byte) | AnyByte | Class(negated: bool, body: Bytes)

  datatype Quantifier = One | ZeroOrMore | OneOrMore | ZeroOrOne

  datatype Item = Item(atom: Atom, quantifier: Quantifier)

  /** A parsed pattern: its items, and whether it must match up to the end of the text. */
  datatype Parsed = Parsed(items: seq<Item>, toEnd: bool)

  predicate IsQuantifier(b: Byte) { b == STAR || b == PLUS || b == QUESTION }

  function QuantifierOf(b: Byte): Quantifier
    requires IsQuantifier(b)
  {
    if b == STAR then ZeroOrMore else if b == PLUS then OneOrMore else ZeroOrOne
  }

  // ---------------------------------------------------------------- character classes

  /** The first character of a class body and the number of bytes it takes; an escape takes two. */
  function ClassChar(body: Bytes): Option<(Byte, nat)> {
    if body == [] then None
    else if body[0] != BACKSLASH then Some((body[0], 1))
    else if |body| < 2 then None
    else Some((body[1], 2))
  }

  /** A class body made of whole characters, so that no escape is cut off. */
  predicate WholeChars(body: Bytes)
    decreases |body|
  {
    body == [] || (ClassChar(body).Some? && WholeChars(body[ClassChar(body).value.1..]))
  }

  datatype Range = Range(lo: Byte, hi: Byte)

  /** The first range of a class body, given its first character, and the number of bytes it takes. */
  function FirstRange(body: Bytes, first: Byte, used: nat): Option<(Range, nat)>
    requires used <= |body|
  {
    var rest := body[used..];
    if |rest| >= 2 && rest[0] == DASH then
      match ClassChar(rest[1..])
      case None => None
      case Some((last, n)) => Some((Range(if first <= last then first else last, if first <= last then last else first), used + 1 + n))
    else Some((Range(first, first), used))
  }

  /** The ranges a class body stands for, up to the first place it cannot be read. */
  function Ranges(body: Bytes): seq<Range>
    decreases |body|
  {
    match ClassChar(body)
    case None => []
    case Some((first, n)) =>
      match FirstRange(body, first, n)
      case None => []
      case Some((range, used)) => [range] + Ranges(body[used..])
  }

  ghost predicate InClass(body: Bytes, ch: Byte) {
    exists r :: r in Ranges(body) && r.lo <= ch <= r.hi
  }

  /** The end of the class that starts before `at`: the index of its closing bracket. */
  function ClassClose(p: Bytes, at: nat, hasMember: bool): Option<nat>
    requires at <= |p|
    decreases |p| - at
  {
    if at == |p| then None
    else if p[at] == BACKSLASH then if at + 1 >= |p| then None else ClassClose(p, at + 2, true)
    else if p[at] == CLOSE then if hasMember then Some(at) else None
    else ClassClose(p, at + 1, true)
  }

  function ParseClass(p: Bytes): Option<(bool, Bytes, nat)> {
    if p == [] || p[0] != OPEN then None
    else
      var negated := |p| > 1 && p[1] == CARET;
      var start := if negated then 2 else 1;
      match ClassClose(p, start, false)
      case None => None
      case Some(close) => ClassCloseAfter(p, start, false); Some((negated, p[start..close], close + 1))
  }

  lemma {:induction false} ClassCloseAfter(p: Bytes, at: nat, hasMember: bool)
    requires at <= |p|
    ensures var c := ClassClose(p, at, hasMember); c.Some? ==> at <= c.value < |p| && p[c.value] == CLOSE
    decreases |p| - at
  {
    if at < |p| {
      if p[at] == BACKSLASH {
        if at + 1 < |p| { ClassCloseAfter(p, at + 2, true); }
      } else if p[at] != CLOSE {
        ClassCloseAfter(p, at + 1, true);
      }
    }
  }

  lemma {:induction false} ClassBodyIsWhole(p: Bytes, at: nat, hasMember: bool)
    requires at <= |p| && ClassClose(p, at, hasMember).Some?
    ensures var c := ClassClose(p, at, hasMember).value; at <= c < |p| && WholeChars(p[at..c])
    ensures hasMember || p[at..ClassClose(p, at, hasMember).value] != []
    decreases |p| - at
  {
    ClassCloseAfter(p, at, hasMember);
    var c := ClassClose(p, at, hasMember).value;
    var body := p[at..c];
    if p[at] == BACKSLASH {
      ClassBodyIsWhole(p, at + 2, true);
      assert body[2..] == p[at + 2..c];
    } else if p[at] != CLOSE {
      ClassBodyIsWhole(p, at + 1, true);
      assert body[1..] == p[at + 1..c];
    }
  }

  /** What an accepted class looks like: its text around a non-empty body of whole characters. */
  lemma ParsedClass(p: Bytes)
    requires ParseClass(p).Some?
    ensures var (negated, body, n) := ParseClass(p).value;
            && n <= |p| && body != [] && WholeChars(body)
            && p[..n] == [OPEN] + (if negated then [CARET] else []) + body + [CLOSE]
  {
    var negated := |p| > 1 && p[1] == CARET;
    var start := if negated then 2 else 1;
    ClassBodyIsWhole(p, start, false);
    ClassCloseAfter(p, start, false);
  }

  /** A body of whole characters is read to its end: reading it never fails. */
  lemma {:induction false} WholeBodyIsRead(body: Bytes)
    requires WholeChars(body) && body != []
    ensures ClassChar(body).Some?
    ensures var (first, n) := ClassChar(body).value;
            && n <= |body| && FirstRange(body, first, n).Some?
            && var used := FirstRange(body, first, n).value.1;
               0 < used <= |body| && WholeChars(body[used..])
  {
    var (first, n) := ClassChar(body).value;
    var rest := body[n..];
    if |rest| >= 2 && rest[0] == DASH {
      assert WholeChars(rest) && ClassChar(rest) == Some((DASH, 1));
      assert WholeChars(rest[1..]);
      var m := ClassChar(rest[1..]).value.1;
      assert rest[1..][m..] == body[n + 1 + m..];
    }
  }

  // ---------------------------------------------------------------- patterns

  function ParseAtom(p: Bytes): Option<(Atom, nat)> {
    if p == [] then None
    else if p[0] == DOT then Some((AnyByte, 1))
    else if p[0] == BACKSLASH then if |p| < 2 then None else Some((Literal(p[1]), 2))
    else if p[0] == OPEN then
      match ParseClass(p)
      case None => None
      case Some((negated, body, n)) => Some((Class(negated, body), n))
    else if IsQuantifier(p[0]) then None
    else Some((Literal(p[0]), 1))
  }

  lemma AtomLength(p: Bytes)
    requires ParseAtom(p).Some?
    ensures 0 < ParseAtom(p).value.1 <= |p|
  {
    if p[0] == OPEN { ParsedClass(p); }
  }

  /** The items of a pattern after any leading caret. A final dollar asks for the end of the text. */
  function Parse(p: Bytes): Result<Parsed, RegexError>
    decreases |p|
  {
    if p == [] then Ok(Parsed([], false))
    else if p == [DOLLAR] then Ok(Parsed([], true))
    else
      match ParseAtom(p)
      case None => Err(if IsQuantifier(p[0]) then QuantifierWithoutAtom else BadAtom)
      case Some((atom, n)) =>
        AtomLength(p);
        var rest := p[n..];
        if rest != [] && IsQuantifier(rest[0])
        then Prepend(Item(atom, QuantifierOf(rest[0])), Parse(rest[1..]))
        else Prepend(Item(atom, One), Parse(rest))
  }

  function Prepend(item: Item, r: Result<Parsed, RegexError>): Result<Parsed, RegexError> {
    match r
    case Ok(parsed) => Ok(parsed.(items := [item] + parsed.items))
    case Err(e) => Err(e)
  }

  /**
   In a pattern that parses, every class has a non-empty body of whole characters; by
   `WholeBodyIsRead` the matcher then reads it without ever taking a failure branch.
   */
  lemma {:induction false} ParsedClassesAreWhole(p: Bytes)
    requires Parse(p).Ok?
    ensures forall item :: item in Parse(p).value.items && item.atom.Class? ==>
              item.atom.body != [] && WholeChars(item.atom.body)
    decreases |p|
  {
    if p != [] && p != [DOLLAR] {
      AtomLength(p);
      var (atom, n) := ParseAtom(p).value;
      if p[0] == OPEN { ParsedClass(p); }
      var rest := p[n..];
      var quantified := rest != [] && IsQuantifier(rest[0]);
      ParsedClassesAreWhole(if quantified then rest[1..] else rest);
      var parsed := Parse(if quantified then rest[1..] else rest).value;
      assert Parse(p).value.items == [Item(atom, if quantified then QuantifierOf(rest[0]) else One)] + parsed.items;
    }
  }

  // ---------------------------------------------------------------- meaning

  ghost predicate Accepts(atom: Atom, ch: Byte) {
    match atom
    case Literal(b) => b == ch
    case AnyByte => true
    case Class(negated, body) => negated != InClass(body, ch)
  }

  ghost predicate AllAccepted(atom: Atom, s: Bytes) {
    forall i :: 0 <= i < |s| ==> Accepts(atom, s[i])
  }

  predicate CountFits(q: Quantifier, n: nat) {
    match q
    case One => n == 1
    case ZeroOrMore => true
    case OneOrMore => n >= 1
    case ZeroOrOne => n <= 1
  }

  /** The strings one item describes. */
  ghost predicate ItemLang(item: Item, s: Bytes) {
    CountFits(item.quantifier, |s|) && AllAccepted(item.atom, s)
  }

  /** The language of a sequence of items: concatenations of one string per item. */
  ghost predicate Lang(items: seq<Item>, s: Bytes)
    decreases |items|
  {
    if items == [] then s == []
    else exists k: nat :: k <= |s| && ItemLang(items[0], s[..k]) && Lang(items[1..], s[k..])
  }

  /** Some prefix of the text is in the language; all of the text when the pattern asks for its end. */
  ghost predicate MatchesPrefix(re: Parsed, text: Bytes) {
    exists j: nat :: PrefixFits(re, text, j)
  }

  ghost predicate PrefixFits(re: Parsed, text: Bytes, j: nat) {
    j <= |text| && Lang(re.items, text[..j]) && (re.toEnd ==> j == |text|)
  }

  /** What a pattern is for: a substring in its language, anchored where the pattern says so. */
  ghost predicate MatchesSomewhere(re: Parsed, text: Bytes, fromStart: bool) {
    exists i: nat, j: nat ::
      && i <= j <= |text| && Lang(re.items, text[i..j])
      && (fromStart ==> i == 0) && (re.toEnd ==> j == |text|)
  }

  ghost predicate TakesFirst(re: Parsed, text: Bytes, k: nat)
    requires re.items != []
  {
    k <= |text| && ItemLang(re.items[0], text[..k]) && MatchesPrefix(re.(items := re.items[1..]), text[k..])
  }

  /** Matching peels items: the first item takes some prefix, the rest match what follows. */
  lemma PeelItem(re: Parsed, text: Bytes)
    requires re.items != []
    ensures MatchesPrefix(re, text) <==> exists k: nat :: TakesFirst(re, text, k)
  {
    var rest := re.(items := re.items[1..]);
    if MatchesPrefix(re, text) {
      var j: nat :| PrefixFits(re, text, j);
      var k: nat :| k <= j && ItemLang(re.items[0], text[..j][..k]) && Lang(re.items[1..], text[..j][k..]);
      assert text[..j][..k] == text[..k] && text[..j][k..] == text[k..][..j - k];
      assert PrefixFits(rest, text[k..], j - k);
      assert TakesFirst(re, text, k);
    }
    if exists k: nat :: TakesFirst(re, text, k) {
      var k: nat :| TakesFirst(re, text, k);
      var j: nat :| PrefixFits(rest, text[k..], j);
      assert text[..k + j][..k] == text[..k] && text[..k + j][k..] == text[k..][..j];
      assert PrefixFits(re, text, k + j);
    }
  }

  lemma NoItems(re: Parsed, text: Bytes)
    requires re.items == []
    ensures MatchesPrefix(re, text) <==> (re.toEnd ==> text == [])
  {
    if re.toEnd ==> text == [] {
      assert PrefixFits(re, text, 0);
    }
  }

  // ---------------------------------------------------------------- the matcher

  /** `parse_class`. */
  method ParseClassAt(p: Bytes) returns (r: Option<(bool, Bytes, nat)>)
    ensures r == ParseClass(p)
  {
    if p == [] || p[0] != OPEN { return None; }
    var i := 1;
    var negated := false;
    if i < |p| && p[i] == CARET {
      negated := true;
      i := i + 1;
    }
    var start := i;
    var hasMember := false;
    while i < |p|
      invariant start <= i <= |p|
      invariant ClassClose(p, start, false) == ClassClose(p, i, hasMember)
    {
      if p[i] == BACKSLASH {
        i := i + 1;
        if i >= |p| { return None; }
        hasMember := true;
        i := i + 1;
      } else if p[i] == CLOSE {
        if !hasMember { return None; }
        return Some((negated, p[start..i], i + 1));
      } else {
        hasMember := true;
        i := i + 1;
      }
    }
    return None;
  }

  /** `class_contains`. */
  method ClassContains(body: Bytes, ch: Byte) returns (found: bool)
    ensures found == InClass(body, ch)
  {
    hide InClass, Ranges;
    var i := 0;
    assert body[0..] == body;
    while i < |body|
      invariant 0 <= i <= |body|
      invariant InClass(body, ch) <==> InClass(body[i..], ch)
      decreases |body| - i
    {
      ghost var left := body[i..];
      ghost var before := i;
      var first := ClassChar(body[i..]);
      if first.None? {
        RangesEnd(left, ch);
        return false;
      }
      i := i + first.value.1;
      assert left[first.value.1..] == body[i..];
      if i + 1 < |body| && body[i] == DASH {
        assert left[first.value.1..][1..] == body[i + 1..];
        var last := ClassChar(body[i + 1..]);
        if last.None? {
          RangesEnd(left, ch);
          return false;
        }
        var lo := if first.value.0 <= last.value.0 then first.value.0 else last.value.0;
        var hi := if first.value.0 <= last.value.0 then last.value.0 else first.value.0;
        RangesStep(left, Range(lo, hi), first.value.1 + 1 + last.value.1, ch);
        i := i + 1 + last.value.1;
        assert left[i - before..] == body[i..];
        if lo <= ch <= hi { return true; }
        continue;
      }
      RangesStep(left, Range(first.value.0, first.value.0), first.value.1, ch);
      if ch == first.value.0 { return true; }
    }
    assert body[|body|..] == [];
    RangesEnd([], ch);
    return false;
  }

  lemma RangesEnd(body: Bytes, ch: Byte)
    requires ClassChar(body).Some? ==> FirstRange(body, ClassChar(body).value.0, ClassChar(body).value.1).None?
    ensures !InClass(body, ch)
  {
  }

  lemma RangesStep(body: Bytes, range: Range, used: nat, ch: Byte)
    requires ClassChar(body).Some? && used <= |body|
    requires FirstRange(body, ClassChar(body).value.0, ClassChar(body).value.1) == Some((range, used))
    ensures InClass(body, ch) <==> range.lo <= ch <= range.hi || InClass(body[used..], ch)
  {
    assert Ranges(body) == [range] + Ranges(body[used..]);
    assert forall r :: r in Ranges(body) <==> r == range || r in Ranges(body[used..]);
  }

  /** `atom_matches`. */
  method AtomMatches(atom: Atom, ch: Byte) returns (r: bool)
    ensures r == Accepts(atom, ch)
  {
    match atom {
      case Literal(b) => r := b == ch;
      case AnyByte => r := true;
      case Class(negated, body) =>
        var found := ClassContains(body, ch);
        r := if negated then !found else found;
    }
  }

  method ParseAtomAt(p: Bytes) returns (r: Option<(Atom, nat)>)
    ensures r == ParseAtom(p)
  {
    if p == [] { return None; }
    if p[0] == DOT { return Some((AnyByte, 1)); }
    if p[0] == BACKSLASH {
      if |p| < 2 { return None; }
      return Some((Literal(p[1]), 2));
    }
    if p[0] == OPEN {
      var c := ParseClassAt(p);
      if c.None? { return None; }
      return Some((Class(c.value.0, c.value.1), c.value.2));
    }
    if IsQuantifier(p[0]) { return None; }
    return Some((Literal(p[0]), 1));
  }

  /** `match_here`: true exactly when the pattern parses and matches a prefix of the text. */
  method MatchHere(p: Bytes, text: Bytes) returns (r: bool)
    ensures r <==> Parse(p).Ok? && MatchesPrefix(Parse(p).value, text)
    decreases |p|, 1
  {
    if p == [] {
      NoItems(Parsed([], false), text);
      return true;
    }
    if p[0] == DOLLAR && |p| == 1 {
      assert p == [DOLLAR];
      NoItems(Parsed([], true), text);
      return text == [];
    }
    var parsed := ParseAtomAt(p);
    if parsed.None? { return false; }
    var (atom, n) := parsed.value;
    ParsedFirst(p);
    hide Parse, ParseAtom, MatchesPrefix, RepeatFits;
    var rest := p[n..];
    ghost var re := Parse(p);
    if rest != [] && IsQuantifier(rest[0]) {
      var after := rest[1..];
      if rest[0] == STAR {
        r := MatchRepeat(atom, 0, after, text);
        if re.Ok? { PeelRepeat(re.value, text, 0); }
      } else if rest[0] == PLUS {
        r := MatchRepeat(atom, 1, after, text);
        if re.Ok? { PeelRepeat(re.value, text, 1); }
      } else {
        r := MatchOptional(atom, after, text);
        if re.Ok? { PeelOptional(re.value, text); }
      }
      return;
    }
    if re.Ok? { PeelOne(re.value, text); }
    if text == [] { return false; }
    var accepted := AtomMatches(atom, text[0]);
    if !accepted { return false; }
    r := MatchHere(rest, text[1..]);
  }

  /** A pattern with a first atom is that atom, its quantifier, and the rest. */
  lemma ParsedFirst(p: Bytes)
    requires p != [] && p != [DOLLAR] && ParseAtom(p).Some?
    ensures var (atom, n) := ParseAtom(p).value;
            && 0 < n <= |p|
            && var rest := p[n..];
               var quantified := rest != [] && IsQuantifier(rest[0]);
               var after := if quantified then rest[1..] else rest;
               && (Parse(p).Ok? <==> Parse(after).Ok?)
               && (Parse(p).Ok? ==>
                     && Parse(p).value.items != []
                     && Parse(p).value.items[0] == Item(atom, if quantified then QuantifierOf(rest[0]) else One)
                     && Parse(p).value.(items := Parse(p).value.items[1..]) == Parse(after).value)
  {
    AtomLength(p);
    var (atom, n) := ParseAtom(p).value;
    var rest := p[n..];
    var quantified := rest != [] && IsQuantifier(rest[0]);
    var after := if quantified then rest[1..] else rest;
    var item := Item(atom, if quantified then QuantifierOf(rest[0]) else One);
    assert Parse(p) == Prepend(item, Parse(after));
    hide Parse;
    if Parse(after).Ok? { assert ([item] + Parse(after).value.items)[1..] == Parse(after).value.items; }
  }

  /** The `?` case of `match_here`. */
  method MatchOptional(atom: Atom, after: Bytes, text: Bytes) returns (r: bool)
    ensures r <==> (
                && Parse(after).Ok?
                && (MatchesPrefix(Parse(after).value, text)
                    || (text != [] && Accepts(atom, text[0]) && MatchesPrefix(Parse(after).value, text[1..]))))
    decreases |after|, 2
  {
    r := MatchHere(after, text);
    if r { return true; }
    if text == [] { return false; }
    var accepted := AtomMatches(atom, text[0]);
    if !accepted { return false; }
    r := MatchHere(after, text[1..]);
  }

  /** The rest matches after `k` accepted bytes. */
  ghost predicate RepeatFits(atom: Atom, minCount: nat, rest: Parsed, text: Bytes, k: nat) {
    minCount <= k <= |text| && AllAccepted(atom, text[..k]) && MatchesPrefix(rest, text[k..])
  }

  /** `match_repeat`: the longest accepted run, then backwards to the shortest allowed one. */
  method MatchRepeat(atom: Atom, minCount: nat, rest: Bytes, text: Bytes) returns (r: bool)
    ensures r <==> Parse(rest).Ok? && exists k: nat :: RepeatFits(atom, minCount, Parse(rest).value, text, k)
    decreases |rest|, 2
  {
    var consumed := 0;
    while consumed < minCount
      invariant 0 <= consumed <= minCount && consumed <= |text|
      invariant AllAccepted(atom, text[..consumed])
    {
      if consumed >= |text| { return false; }
      var accepted := AtomMatches(atom, text[consumed]);
      if !accepted {
        StopsAt(atom, text, consumed);
        return false;
      }
      consumed := consumed + 1;
    }

    var max := consumed;
    var more := true;
    while max < |text| && more
      invariant consumed <= max <= |text|
      invariant AllAccepted(atom, text[..max])
      invariant !more ==> max < |text| && !Accepts(atom, text[max])
      decreases |text| - max, more
    {
      more := AtomMatches(atom, text[max]);
      if more { max := max + 1; }
    }
    if max < |text| { StopsAt(atom, text, max); }

    ghost var re := Parse(rest);
    var i := max;
    while true
      invariant consumed <= i + 1 && i <= max
      invariant re.Ok? ==> forall k: nat | i < k :: !RepeatFits(atom, minCount, re.value, text, k)
      decreases i
    {
      if i < consumed { return false; }
      r := MatchHere(rest, text[i..]);
      if r {
        assert AllAccepted(atom, text[..i]);
        assert RepeatFits(atom, minCount, re.value, text, i);
        return true;
      }
      assert re.Ok? ==> !RepeatFits(atom, minCount, re.value, text, i);
      if i == 0 { return false; }
      i := i - 1;
    }
  }

  /** No accepted run goes past a byte that is not accepted. */
  lemma StopsAt(atom: Atom, text: Bytes, at: nat)
    requires at < |text| && !Accepts(atom, text[at])
    ensures forall k: nat | at < k <= |text| :: !AllAccepted(atom, text[..k])
  {
    forall k: nat | at < k <= |text| ensures !AllAccepted(atom, text[..k]) {
      assert text[..k][at] == text[at];
    }
  }

  lemma PeelRepeat(re: Parsed, text: Bytes, minCount: nat)
    requires re.items != []
    requires minCount == 0 ==> re.items[0].quantifier == ZeroOrMore
    requires minCount > 0 ==> minCount == 1 && re.items[0].quantifier == OneOrMore
    ensures MatchesPrefix(re, text)
       <==> exists k: nat :: RepeatFits(re.items[0].atom, minCount, re.(items := re.items[1..]), text, k)
  {
    PeelItem(re, text);
    forall k: nat
      ensures TakesFirst(re, text, k) <==> RepeatFits(re.items[0].atom, minCount, re.(items := re.items[1..]), text, k)
    {
    }
  }

  lemma PeelOne(re: Parsed, text: Bytes)
    requires re.items != [] && re.items[0].quantifier == One
    ensures MatchesPrefix(re, text)
       <==> text != [] && Accepts(re.items[0].atom, text[0]) && MatchesPrefix(re.(items := re.items[1..]), text[1..])
  {
    PeelItem(re, text);
    if text != [] {
      assert AllAccepted(re.items[0].atom, text[..1]) <==> Accepts(re.items[0].atom, text[0]);
      assert TakesFirst(re, text, 1) <==> Accepts(re.items[0].atom, text[0]) && MatchesPrefix(re.(items := re.items[1..]), text[1..]);
    }
  }

  lemma PeelOptional(re: Parsed, text: Bytes)
    requires re.items != [] && re.items[0].quantifier == ZeroOrOne
    ensures MatchesPrefix(re, text)
       <==> MatchesPrefix(re.(items := re.items[1..]), text)
            || (text != [] && Accepts(re.items[0].atom, text[0]) && MatchesPrefix(re.(items := re.items[1..]), text[1..]))
  {
    PeelItem(re, text);
    assert text[0..] == text;
    assert TakesFirst(re, text, 0) <==> MatchesPrefix(re.(items := re.items[1..]), text);
    if text != [] {
      assert AllAccepted(re.items[0].atom, text[..1]) <==> Accepts(re.items[0].atom, text[0]);
      assert TakesFirst(re, text, 1) <==> Accepts(re.items[0].atom, text[0]) && MatchesPrefix(re.(items := re.items[1..]), text[1..]);
    }
  }

  // ---------------------------------------------------------------- entry points

  /** How the rest of a pattern is judged, given whether an atom precedes it. */
  function Verdict(p: Bytes, afterAtom: bool): Result<(), RegexError> {
    var judged := if afterAtom && p != [] && IsQuantifier(p[0]) then Parse(p[1..]) else Parse(p);
    match judged
    case Ok(_) => Ok(())
    case Err(e) => Err(e)
  }

  /** The pattern without its leading caret, and whether it had one. */
  function Unanchored(p: Bytes): (Bytes, bool) {
    if p != [] && p[0] == CARET then (p[1..], true) else (p, false)
  }

  /** `validate_pattern`: accepts exactly the patterns that parse, and reports the same error. */
  method ValidatePattern(p: Bytes) returns (r: Result<(), RegexError>)
    ensures r == Verdict(Unanchored(p).0, false)
  {
    var i := 0;
    var prevWasAtom := false;
    if p != [] && p[0] == CARET { i := 1; }
    ghost var start := i;
    assert p[start..] == Unanchored(p).0;
    while i < |p|
      invariant start <= i <= |p|
      invariant Verdict(p[start..], false) == Verdict(p[i..], prevWasAtom)
      decreases |p| - i
    {
      ghost var left := p[i..];
      if p[i] == DOLLAR && i + 1 == |p| {
        assert left == [DOLLAR];
        return Ok(());
      }
      if IsQuantifier(p[i]) {
        if !prevWasAtom { return Err(QuantifierWithoutAtom); }
        prevWasAtom := false;
        i := i + 1;
        assert left[1..] == p[i..];
        continue;
      }
      var atom := ParseAtomAt(p[i..]);
      if atom.None? { return Err(BadAtom); }
      AtomLength(left);
      prevWasAtom := true;
      i := i + atom.value.1;
      assert left[atom.value.1..] == p[i..];
    }
    assert p[|p|..] == [];
    return Ok(());
  }

  /**
   `is_match`: an error exactly when the pattern does not parse; otherwise true exactly when some
   substring, anchored as the pattern asks, is in the pattern's language.
   */
  method IsMatch(pattern: Bytes, text: Bytes) returns (r: Result<bool, RegexError>)
    ensures var (p, fromStart) := Unanchored(pattern);
            match Parse(p)
            case Err(e) => r == Err(e)
            case Ok(re) => r == Ok(MatchesSomewhere(re, text, fromStart))
  {
    var valid := ValidatePattern(pattern);
    if valid.Err? { return Err(valid.error); }
    ghost var re := Parse(Unanchored(pattern).0).value;
    if pattern != [] && pattern[0] == CARET {
      var b := MatchHere(pattern[1..], text);
      Somewhere(re, text, true);
      assert text[0..] == text;
      assert b <==> MatchesFrom(re, text, 0);
      return Ok(b);
    }
    Somewhere(re, text, false);
    var idx := 0;
    while true
      invariant 0 <= idx <= |text|
      invariant forall i: nat | i < idx :: !MatchesFrom(re, text, i)
      decreases |text| - idx
    {
      var b := MatchHere(pattern, text[idx..]);
      assert b <==> MatchesFrom(re, text, idx);
      if b { return Ok(true); }
      if idx >= |text| { break; }
      idx := idx + 1;
    }
    return Ok(false);
  }

  ghost predicate MatchesFrom(re: Parsed, text: Bytes, i: nat) {
    i <= |text| && MatchesPrefix(re, text[i..])
  }

  /** A substring match is a prefix match at some start. */
  lemma Somewhere(re: Parsed, text: Bytes, fromStart: bool)
    ensures MatchesSomewhere(re, text, fromStart)
       <==> exists i: nat :: MatchesFrom(re, text, i) && (fromStart ==> i == 0)
  {
    if MatchesSomewhere(re, text, fromStart) {
      var i: nat, j: nat :| i <= j <= |text| && Lang(re.items, text[i..j])
        && (fromStart ==> i == 0) && (re.toEnd ==> j == |text|);
      assert text[i..][..j - i] == text[i..j];
      assert PrefixFits(re, text[i..], j - i);
      assert MatchesFrom(re, text, i);
    }
    if exists i: nat :: MatchesFrom(re, text, i) && (fromStart ==> i == 0) {
      var i: nat :| MatchesFrom(re, text, i) && (fromStart ==> i == 0);
      var j: nat :| PrefixFits(re, text[i..], j);
      assert text[i..][..j] == text[i..i + j];
    }
  }
}
