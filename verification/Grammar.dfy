/**
 The textual form of probe points: the parser combinators and the `Display` impls of
 crates/rocket-surgeon-probes/src/grammar.rs.
 */
module Grammar {
  import opened Prelude
  import opened Bits
  import opened ProbePoints

  // ----- characters and numbers -----

  predicate IsAlpha(c: char) { 'a' <= c <= 'z' || 'A' <= c <= 'Z' }

  predicate IsDigit(c: char) { '0' <= c <= '9' }

  predicate IsIdent(c: char) { IsAlpha(c) || IsDigit(c) || c == '_' || c == '-' }

  function Digit(n: nat): char
    requires n < 10
  {
    ('0' as nat + n) as char
  }

  /** `{n}`: decimal without leading zeros. */
  function Decimal(n: nat): (s: string)
    ensures s != [] && forall c :: c in s ==> IsDigit(c)
  {
    if n < 10 then [Digit(n)] else Decimal(n / 10) + [Digit(n % 10)]
  }

  predicate AllDigits(s: string) { forall c :: c in s ==> IsDigit(c) }

  function DigitValue(c: char): (n: nat)
    requires IsDigit(c)
    ensures n < 10 && Digit(n) == c && (n == 0 <==> c == '0')
  {
    c as nat - '0' as nat
  }

  /** The number a string of digits denotes. */
  function Value(s: string): nat
    requires AllDigits(s)
  {
    if s == [] then 0 else 10 * Value(s[..|s| - 1]) + DigitValue(s[|s| - 1])
  }

  lemma {:induction false} ValueOfDecimal(n: nat)
    ensures Value(Decimal(n)) == n
  {
    if n >= 10 {
      ValueOfDecimal(n / 10);
      assert Decimal(n)[..|Decimal(n)| - 1] == Decimal(n / 10);
    }
  }

  /** The length of the longest prefix all of whose characters satisfy `p`. */
  function Span(s: string, p: char -> bool): (n: nat)
    ensures n <= |s| && (forall i :: 0 <= i < n ==> p(s[i])) && (n < |s| ==> !p(s[n]))
  {
    if s == [] || !p(s[0]) then 0 else 1 + Span(s[1..], p)
  }

  /** A span is determined by where it can stop. */
  lemma {:induction false} SpanIs(s: string, p: char -> bool, n: nat)
    requires n <= |s| && (forall i :: 0 <= i < n ==> p(s[i])) && (n < |s| ==> !p(s[n]))
    ensures Span(s, p) == n
  {
    if n > 0 {
      SpanIs(s[1..], p, n - 1);
    }
  }

  // ----- the combinators -----

  /** A backtracking failure lets the caller try something else, a cut ends the parse. */
  datatype Parsed<T> = Done(value: T, rest: string) | Backtrack | Cut

  function Identifier(s: string): Parsed<string> {
    var first := Span(s, IsAlpha);
    if first == 0 then Backtrack
    else
      var n := first + Span(s[first..], IsIdent);
      Done(s[..n], s[n..])
  }

  function NonNegInteger(s: string): Parsed<nat> {
    var n := Span(s, IsDigit);
    if n == 0 then Backtrack
    else
      var digits := s[..n];
      assert forall i :: 0 <= i < n ==> digits[i] == s[i];
      var value := Value(digits);
      if value < U32_LIMIT then Done(value, s[n..]) else Cut
  }

  predicate StartsWith(s: string, c: char) { s != [] && s[0] == c }

  function NameOrWildcard(s: string): Parsed<NameOrWild> {
    if StartsWith(s, '*') then Done(AnyName, s[1..])
    else match Identifier(s)
      case Done(name, rest) => Done(Name(name), rest)
      case Backtrack => Backtrack
      case Cut => Cut
  }

  function NumOrWildcard(s: string): Parsed<NumOrWild> {
    if StartsWith(s, '*') then Done(AnyNum, s[1..])
    else match NonNegInteger(s)
      case Done(num, rest) => Done(Num(num), rest)
      case Backtrack => Backtrack
      case Cut => Cut
  }

  /** The optional `[index]`; a backtracking failure inside it gives the input back. */
  function OptIndex(s: string): Parsed<Option<nat>> {
    if !StartsWith(s, '[') then Done(None, s)
    else match NonNegInteger(s[1..])
      case Done(index, rest) => if StartsWith(rest, ']') then Done(Some(index), rest[1..]) else Done(None, s)
      case Backtrack => Done(None, s)
      case Cut => Cut
  }

  function ComponentSegment(s: string): (r: Parsed<Segment>)
    ensures r.Done? ==> |r.rest| < |s|
  {
    match Identifier(s)
    case Backtrack => Backtrack
    case Cut => Cut
    case Done(name, rest) =>
      match OptIndex(rest)
      case Backtrack => Backtrack
      case Cut => Cut
      case Done(index, rest') => Done(if index.Some? then Indexed(name, index.value) else Named(name), rest')
  }

  /** `separated(1.., component_seg, '.')`: a separator with no segment behind it is given back. */
  function Segments(s: string): Parsed<seq<Segment>> {
    match ComponentSegment(s)
    case Backtrack => Backtrack
    case Cut => Cut
    case Done(seg, rest) =>
      if !StartsWith(rest, '.') then Done([seg], rest)
      else match Segments(rest[1..])
        case Backtrack => Done([seg], rest)
        case Cut => Cut
        case Done(segs, rest') => Done([seg] + segs, rest')
  }

  function ComponentOrWildcard(s: string): Parsed<ComponentOrWild> {
    if StartsWith(s, '*') then Done(AnyComponent, s[1..])
    else match Segments(s)
      case Done(segs, rest) => Done(Path(segs), rest)
      case Backtrack => Backtrack
      case Cut => Cut
  }

  /** What follows a `:`, or nothing when the next character is another one. */
  function AfterColon<T>(r: Parsed<T>): Option<string> {
    if r.Done? && StartsWith(r.rest, ':') then Some(r.rest[1..]) else None
  }

  /** The fields up to the layer, and what follows their colons. */
  function Coordinates(s: string): Option<(NameOrWild, NumOrWild, NumOrWild, string)> {
    var model := NameOrWildcard(s);
    var s1 := AfterColon(model);
    if s1.None? then None else
    var rank := NumOrWildcard(s1.value);
    var s2 := AfterColon(rank);
    if s2.None? then None else
    var layer := NumOrWildcard(s2.value);
    var s3 := AfterColon(layer);
    if s3.None? then None else Some((model.value, rank.value, layer.value, s3.value))
  }

  /** The fields from the component on, which must use up the input. */
  function Target(s: string): Option<(ComponentOrWild, NumOrWild, NameOrWild)> {
    var component := ComponentOrWildcard(s);
    var s1 := AfterColon(component);
    if s1.None? then None else
    var callIndex := NumOrWildcard(s1.value);
    var s2 := AfterColon(callIndex);
    if s2.None? then None else
    var event := NameOrWildcard(s2.value);
    if !event.Done? || event.rest != [] then None else Some((component.value, callIndex.value, event.value))
  }

  /** `ProbePoint::parse`. */
  function Parse(s: string): Option<ProbePoint> {
    var front := Coordinates(s);
    if front.None? then None else
    var (model, rank, layer, rest) := front.value;
    var back := Target(rest);
    if back.None? then None else
    var (component, callIndex, event) := back.value;
    Some(ProbePoint(model, rank, layer, component, callIndex, event))
  }

  // ----- printing -----

  function PrintName(n: NameOrWild): string {
    match n case AnyName => "*" case Name(name) => name
  }

  function PrintNum(n: NumOrWild): string {
    match n case AnyNum => "*" case Num(num) => Decimal(num)
  }

  function PrintSegment(seg: Segment): string {
    match seg case Named(name) => name case Indexed(name, index) => name + "[" + Decimal(index) + "]"
  }

  function PrintSegments(segs: seq<Segment>): string {
    if segs == [] then ""
    else if |segs| == 1 then PrintSegment(segs[0])
    else PrintSegment(segs[0]) + "." + PrintSegments(segs[1..])
  }

  function PrintComponent(c: ComponentOrWild): string {
    match c case AnyComponent => "*" case Path(segs) => PrintSegments(segs)
  }

  function PrintTarget(p: ProbePoint): string {
    PrintComponent(p.component) + (":" + (PrintNum(p.callIndex) + (":" + PrintName(p.event))))
  }

  function Print(p: ProbePoint): string {
    PrintName(p.model) + (":" + (PrintNum(p.rank) + (":" + (PrintNum(p.layer) + (":" + PrintTarget(p))))))
  }

  // ----- well-formed points -----

  /** A letter, and behind it letters, digits, underscores and hyphens. */
  predicate WellFormedName(name: string) {
    && name != [] && ('a' <= name[0] <= 'z' || 'A' <= name[0] <= 'Z')
    && forall i :: 0 <= i < |name| ==>
         || 'a' <= name[i] <= 'z' || 'A' <= name[i] <= 'Z' || '0' <= name[i] <= '9'
         || name[i] == '_' || name[i] == '-'
  }

  predicate WellFormedSegment(seg: Segment) {
    WellFormedName(seg.name) && (seg.Indexed? ==> seg.index < U32_LIMIT)
  }

  predicate WellFormed(p: ProbePoint) {
    && (p.model.Name? ==> WellFormedName(p.model.name))
    && (p.rank.Num? ==> p.rank.num < U32_LIMIT)
    && (p.layer.Num? ==> p.layer.num < U32_LIMIT)
    && (p.component.Path? ==>
          p.component.segments != [] && forall seg :: seg in p.component.segments ==> WellFormedSegment(seg))
    && (p.callIndex.Num? ==> p.callIndex.num < U32_LIMIT)
    && (p.event.Name? ==> WellFormedName(p.event.name))
  }

  // ----- printing, then parsing -----

  /** `rest` cannot prolong a run of `p` characters. */
  predicate Ends(rest: string, p: char -> bool) { rest == [] || !p(rest[0]) }

  lemma IdentifierIs(s: string)
    requires s != [] && IsAlpha(s[0])
    ensures var n := Span(s, IsIdent); n > 0 && Identifier(s) == Done(s[..n], s[n..])
  {
    var first := Span(s, IsAlpha);
    var n := first + Span(s[first..], IsIdent);
    forall i | 0 <= i < n ensures IsIdent(s[i]) {
      if i >= first {
        assert s[i] == s[first..][i - first];
      }
    }
    SpanIs(s, IsIdent, n);
  }

  lemma PrintedName(name: string, rest: string)
    requires WellFormedName(name) && Ends(rest, IsIdent)
    ensures Identifier(name + rest) == Done(name, rest)
  {
    SpanIs(name + rest, IsIdent, |name|);
    IdentifierIs(name + rest);
    assert (name + rest)[..|name|] == name && (name + rest)[|name|..] == rest;
  }

  lemma PrintedNumber(n: nat, rest: string)
    requires n < U32_LIMIT && Ends(rest, IsDigit)
    ensures NonNegInteger(Decimal(n) + rest) == Done(n, rest)
  {
    var d := Decimal(n);
    SpanIs(d + rest, IsDigit, |d|);
    assert (d + rest)[..|d|] == d && (d + rest)[|d|..] == rest;
    ValueOfDecimal(n);
  }

  lemma PrintedIndex(index: nat, rest: string)
    requires index < U32_LIMIT
    ensures OptIndex("[" + (Decimal(index) + ("]" + rest))) == Done(Some(index), rest)
  {
    var tail := Decimal(index) + ("]" + rest);
    PrintedNumber(index, "]" + rest);
    assert ("[" + tail)[1..] == tail && ("]" + rest)[1..] == rest;
  }

  lemma SegmentIs(s: string, name: string, mid: string, index: Option<nat>, rest: string)
    requires Identifier(s) == Done(name, mid) && OptIndex(mid) == Done(index, rest)
    ensures ComponentSegment(s) == Done(if index.Some? then Indexed(name, index.value) else Named(name), rest)
  {
  }

  lemma PrintedSegment(seg: Segment, rest: string)
    requires WellFormedSegment(seg) && Ends(rest, IsIdent) && !StartsWith(rest, '[')
    ensures ComponentSegment(PrintSegment(seg) + rest) == Done(seg, rest)
  {
    match seg {
      case Named(name) =>
        PrintedName(name, rest);
        SegmentIs(name + rest, name, rest, None, rest);
      case Indexed(name, index) =>
        var tail := "[" + (Decimal(index) + ("]" + rest));
        assert PrintSegment(seg) + rest == name + tail;
        PrintedName(name, tail);
        PrintedIndex(index, rest);
        SegmentIs(name + tail, name, tail, Some(index), rest);
    }
  }

  lemma SegmentsEnd(s: string, seg: Segment, rest: string)
    requires ComponentSegment(s) == Done(seg, rest) && !StartsWith(rest, '.')
    ensures Segments(s) == Done([seg], rest)
  {
  }

  lemma SegmentsGoOn(s: string, seg: Segment, tail: string, segs: seq<Segment>, rest: string)
    requires ComponentSegment(s) == Done(seg, "." + tail) && Segments(tail) == Done(segs, rest)
    ensures Segments(s) == Done([seg] + segs, rest)
  {
    assert ("." + tail)[1..] == tail;
  }

  lemma {:induction false} PrintedSegments(segs: seq<Segment>, rest: string)
    requires segs != [] && (forall seg :: seg in segs ==> WellFormedSegment(seg))
    requires Ends(rest, IsIdent) && !StartsWith(rest, '[') && !StartsWith(rest, '.')
    ensures Segments(PrintSegments(segs) + rest) == Done(segs, rest)
  {
    if |segs| == 1 {
      assert segs == [segs[0]];
      PrintedSegment(segs[0], rest);
      SegmentsEnd(PrintSegments(segs) + rest, segs[0], rest);
    } else {
      assert segs == [segs[0]] + segs[1..];
      var tail := PrintSegments(segs[1..]) + rest;
      assert PrintSegments(segs) + rest == PrintSegment(segs[0]) + ("." + tail);
      PrintedSegment(segs[0], "." + tail);
      PrintedSegments(segs[1..], rest);
      SegmentsGoOn(PrintSegments(segs) + rest, segs[0], tail, segs[1..], rest);
    }
  }

  lemma PrintedNameField(n: NameOrWild, rest: string)
    requires (n.Name? ==> WellFormedName(n.name)) && Ends(rest, IsIdent)
    ensures NameOrWildcard(PrintName(n) + rest) == Done(n, rest)
  {
    if n.Name? {
      PrintedName(n.name, rest);
    }
  }

  lemma PrintedNumField(n: NumOrWild, rest: string)
    requires (n.Num? ==> n.num < U32_LIMIT) && Ends(rest, IsDigit)
    ensures NumOrWildcard(PrintNum(n) + rest) == Done(n, rest)
  {
    if n.Num? {
      PrintedNumber(n.num, rest);
      assert Decimal(n.num)[0] in Decimal(n.num);
    }
  }

  lemma SegmentsStart(segs: seq<Segment>, rest: string)
    requires segs != [] && WellFormedSegment(segs[0])
    ensures !StartsWith(PrintSegments(segs) + rest, '*')
  {
  }

  lemma PrintedComponentField(c: ComponentOrWild, rest: string)
    requires c.Path? ==> c.segments != [] && forall seg :: seg in c.segments ==> WellFormedSegment(seg)
    requires Ends(rest, IsIdent) && !StartsWith(rest, '[') && !StartsWith(rest, '.')
    ensures ComponentOrWildcard(PrintComponent(c) + rest) == Done(c, rest)
  {
    if c.Path? {
      SegmentsStart(c.segments, rest);
      PrintedSegments(c.segments, rest);
    }
  }

  lemma ColonThen<T>(r: Parsed<T>, v: T, t: string)
    requires r == Done(v, ":" + t)
    ensures AfterColon(r) == Some(t)
  {
    assert (":" + t)[1..] == t;
  }

  lemma PrintedCoordinates(p: ProbePoint, rest: string)
    requires WellFormed(p)
    ensures Coordinates(PrintName(p.model) + (":" + (PrintNum(p.rank) + (":" + (PrintNum(p.layer) + (":" + rest))))))
         == Some((p.model, p.rank, p.layer, rest))
  {
    var t2 := PrintNum(p.layer) + (":" + rest);
    var t1 := PrintNum(p.rank) + (":" + t2);
    PrintedNameField(p.model, ":" + t1);
    ColonThen(NameOrWildcard(PrintName(p.model) + (":" + t1)), p.model, t1);
    PrintedNumField(p.rank, ":" + t2);
    ColonThen(NumOrWildcard(t1), p.rank, t2);
    PrintedNumField(p.layer, ":" + rest);
    ColonThen(NumOrWildcard(t2), p.layer, rest);
  }

  lemma PrintedTarget(p: ProbePoint)
    requires WellFormed(p)
    ensures Target(PrintTarget(p)) == Some((p.component, p.callIndex, p.event))
  {
    var t2 := PrintName(p.event);
    var t1 := PrintNum(p.callIndex) + (":" + t2);
    PrintedComponentField(p.component, ":" + t1);
    ColonThen(ComponentOrWildcard(PrintTarget(p)), p.component, t1);
    PrintedNumField(p.callIndex, ":" + t2);
    ColonThen(NumOrWildcard(t1), p.callIndex, t2);
    PrintedNameField(p.event, "");
    assert t2 + "" == t2;
  }

  /** Printing is undone by parsing. */
  lemma PrintThenParse(p: ProbePoint)
    requires WellFormed(p)
    ensures Parse(Print(p)) == Some(p)
  {
    PrintedCoordinates(p, PrintTarget(p));
    PrintedTarget(p);
  }

  lemma SmallDecimals()
    ensures Decimal(0) == "0" && Decimal(3) == "3" && Decimal(12) == "12"
  {
    assert Decimal(12) == Decimal(1) + [Digit(2)];
  }

  lemma ExampleComponent(segments: seq<Segment>)
    requires segments == [Indexed("b_2", 3), Named("c")]
    ensures PrintSegments(segments) == "b_2[3].c"
  {
    SmallDecimals();
    assert PrintSegment(segments[0]) == "b_2[3]";
    assert segments[1..] == [Named("c")];
    assert PrintSegments(segments) == "b_2[3]" + "." + PrintSegments(segments[1..]);
  }

  lemma ExampleTarget(p: ProbePoint)
    requires p.component == Path([Indexed("b_2", 3), Named("c")]) && p.callIndex == Num(12) && p.event == AnyName
    ensures PrintTarget(p) == "b_2[3].c:12:*"
  {
    SmallDecimals();
    ExampleComponent(p.component.segments);
    assert "b_2[3].c" + (":" + ("12" + (":" + "*"))) == "b_2[3].c:12:*";
  }

  lemma ExampleFront(target: string)
    ensures "a-1" + (":" + ("*" + (":" + ("0" + (":" + target))))) == "a-1:*:0:" + target
  {
    assert "*" + (":" + ("0" + (":" + target))) == "*:0:" + target;
  }

  /** A point as it is written: wildcards, numbers, an indexed and a plain segment. */
  lemma ParsesExample()
    ensures Parse("a-1:*:0:" + "b_2[3].c:12:*")
         == Some(ProbePoint(Name("a-1"), AnyNum, Num(0), Path([Indexed("b_2", 3), Named("c")]), Num(12), AnyName))
  {
    var p := ProbePoint(Name("a-1"), AnyNum, Num(0), Path([Indexed("b_2", 3), Named("c")]), Num(12), AnyName);
    SmallDecimals();
    ExampleTarget(p);
    ExampleFront(PrintTarget(p));
    assert WellFormedSegment(Indexed("b_2", 3)) && WellFormedSegment(Named("c"));
    PrintThenParse(p);
  }

  // ----- parsing, then printing -----

  /** Whether a number may start behind `prev`. */
  predicate NumberStart(prev: char) { prev == ':' || prev == '[' }

  /**
   The text with the redundant leading zeros of its numbers dropped: a zero behind a `:` or `[`,
   or behind another dropped zero, that still has a digit behind it. `prev` is the character
   before `s`.
   */
  function Canon(s: string, prev: char): string {
    if s == [] then []
    else if DropsZero(s, prev) then Canon(s[1..], prev)
    else [s[0]] + Canon(s[1..], s[0])
  }

  /** The last character of `s`, or `prev` when there is none. */
  function LastOr(s: string, prev: char): char {
    if s == [] then prev else s[|s| - 1]
  }

  /** `x` and `y` do not meet in the middle of a number. */
  predicate Apart(x: string, y: string) {
    x == [] || y == [] || x[|x| - 1] != '0' || !IsDigit(y[0])
  }

  /** Whether the first character is a redundant zero. */
  predicate DropsZero(s: string, prev: char) {
    |s| > 1 && NumberStart(prev) && s[0] == '0' && IsDigit(s[1])
  }

  /** One character of `x + y`, when there is one of `x`. */
  lemma CanonStep(x: string, y: string, prev: char)
    requires x != [] && Apart(x, y)
    ensures Canon(x + y, prev) == if DropsZero(x, prev) then Canon(x[1..] + y, prev) else [x[0]] + Canon(x[1..] + y, x[0])
    ensures Canon(x, prev) == if DropsZero(x, prev) then Canon(x[1..], prev) else [x[0]] + Canon(x[1..], x[0])
    ensures LastOr(x, prev) == LastOr(x[1..], x[0]) && Apart(x[1..], y)
    ensures DropsZero(x, prev) ==> LastOr(x, prev) == LastOr(x[1..], prev)
  {
    assert (x + y)[1..] == x[1..] + y;
  }

  lemma {:induction false} CanonConcat(x: string, y: string, prev: char)
    requires Apart(x, y)
    ensures Canon(x + y, prev) == Canon(x, prev) + Canon(y, LastOr(x, prev))
  {
    if x == [] {
      assert x + y == y;
    } else {
      CanonStep(x, y, prev);
      if DropsZero(x, prev) {
        CanonConcat(x[1..], y, prev);
      } else {
        CanonConcat(x[1..], y, x[0]);
      }
    }
  }

  /** Text without `:` or `[` is left alone, unless it starts a number with a zero. */
  lemma {:induction false} CanonPlain(x: string, prev: char)
    requires forall i :: 0 <= i < |x| ==> !NumberStart(x[i])
    requires x == [] || !NumberStart(prev) || x[0] != '0' || |x| == 1
    ensures Canon(x, prev) == x
  {
    if x != [] {
      CanonPlain(x[1..], x[0]);
    }
  }

  lemma {:induction false} ValueFront(d: string)
    requires d != [] && AllDigits(d) && d[0] == '0'
    ensures AllDigits(d[1..]) && Value(d) == Value(d[1..])
  {
    if |d| > 1 {
      ValueFront(d[..|d| - 1]);
      assert d[..|d| - 1][1..] == d[1..][..|d| - 2];
    }
  }

  lemma {:induction false} ValuePositive(d: string)
    requires d != [] && AllDigits(d) && d[0] != '0'
    ensures Value(d) > 0
  {
    if |d| > 1 {
      ValuePositive(d[..|d| - 1]);
    }
  }

  lemma {:induction false} DecimalOfValue(d: string)
    requires d != [] && AllDigits(d) && (d[0] != '0' || |d| == 1)
    ensures Decimal(Value(d)) == d
  {
    var d', c := d[..|d| - 1], d[|d| - 1];
    if |d| > 1 {
      assert d'[0] == d[0];
      ValuePositive(d');
      DecimalOfValue(d');
    }
    assert d == d' + [c];
  }

  /** Dropping the leading zeros of a numeral gives the canonical one. */
  lemma {:induction false} CanonNumber(d: string, prev: char)
    requires d != [] && AllDigits(d) && NumberStart(prev)
    ensures Canon(d, prev) == Decimal(Value(d))
  {
    if d[0] == '0' && |d| > 1 {
      ValueFront(d);
      assert IsDigit(d[1]);
      CanonNumber(d[1..], prev);
    } else {
      forall i | 0 <= i < |d| ensures !NumberStart(d[i]) {
        assert d[i] in d;
      }
      CanonPlain(d, prev);
      DecimalOfValue(d);
    }
  }

  /** What a parser used up. */
  function Used(s: string, rest: string): string
    requires |rest| <= |s|
  {
    s[..|s| - |rest|]
  }

  /**
   A parser that returned `rest` used up a prefix whose canonical form is `printed`, and can
   itself be followed by anything `rest` starts with.
   */
  predicate Faithful(s: string, rest: string, prev: char, printed: string) {
    && |rest| < |s| && s == Used(s, rest) + rest
    && Canon(Used(s, rest), prev) == printed && Apart(Used(s, rest), rest)
  }

  lemma FaithfulSplit(s: string, n: nat, prev: char, printed: string)
    requires 0 < n <= |s| && Canon(s[..n], prev) == printed && (n == |s| || !IsDigit(s[n]))
    ensures Faithful(s, s[n..], prev, printed) && Used(s, s[n..]) == s[..n]
  {
    assert s == s[..n] + s[n..];
  }

  lemma ParsedName(s: string, prev: char)
    requires Identifier(s).Done?
    ensures var r := Identifier(s);
            WellFormedName(r.value) && Faithful(s, r.rest, prev, r.value) && Used(s, r.rest) == r.value
  {
    IdentifierIs(s);
    var n := Span(s, IsIdent);
    CanonPlain(s[..n], prev);
    FaithfulSplit(s, n, prev, s[..n]);
  }

  lemma ParsedNumber(s: string, prev: char)
    requires NonNegInteger(s).Done? && NumberStart(prev)
    ensures var r := NonNegInteger(s);
            r.value < U32_LIMIT && Faithful(s, r.rest, prev, Decimal(r.value)) && s[0] != '*'
  {
    var n := Span(s, IsDigit);
    CanonNumber(s[..n], prev);
    FaithfulSplit(s, n, prev, Decimal(Value(s[..n])));
  }

  lemma ParsedNameField(s: string, prev: char)
    requires NameOrWildcard(s).Done?
    ensures var r := NameOrWildcard(s);
            (r.value.Name? ==> WellFormedName(r.value.name)) && Faithful(s, r.rest, prev, PrintName(r.value))
  {
    if StartsWith(s, '*') {
      assert s == "*" + s[1..];
    } else {
      ParsedName(s, prev);
    }
  }

  lemma ParsedNumField(s: string, prev: char)
    requires NumOrWildcard(s).Done? && NumberStart(prev)
    ensures var r := NumOrWildcard(s);
            (r.value.Num? ==> r.value.num < U32_LIMIT) && Faithful(s, r.rest, prev, PrintNum(r.value))
  {
    if StartsWith(s, '*') {
      assert s == "*" + s[1..];
    } else {
      ParsedNumber(s, prev);
    }
  }

  /** Parsers in sequence: prefixes, canonical forms and prints all join up. */
  lemma FaithfulSeq(s: string, r1: string, r2: string, prev: char, p1: string, p2: string)
    requires Faithful(s, r1, prev, p1) && Faithful(r1, r2, LastOr(Used(s, r1), prev), p2)
    ensures Faithful(s, r2, prev, p1 + p2) && LastOr(Used(s, r2), prev) == LastOr(Used(r1, r2), prev)
  {
    var x, y := Used(s, r1), Used(r1, r2);
    assert s == x + y + r2;
    assert Used(s, r2) == x + y;
    CanonConcat(x, y, prev);
  }

  lemma FaithfulChar(s: string, prev: char)
    requires s != [] && !IsDigit(s[0])
    ensures Faithful(s, s[1..], prev, [s[0]]) && Used(s, s[1..]) == [s[0]]
  {
    assert s == [s[0]] + s[1..];
    assert Canon([s[0]], prev) == [s[0]] + Canon([], s[0]);
  }

  lemma ParsedIndex(s: string, prev: char)
    requires OptIndex(s).Done? && OptIndex(s).value.Some?
    ensures var r := OptIndex(s);
            r.value.value < U32_LIMIT && Faithful(s, r.rest, prev, "[" + Decimal(r.value.value) + "]")
  {
    var number := NonNegInteger(s[1..]);
    FaithfulChar(s, prev);
    ParsedNumber(s[1..], '[');
    FaithfulSeq(s, s[1..], number.rest, prev, "[", Decimal(number.value));
    FaithfulChar(number.rest, LastOr(Used(s, number.rest), prev));
    FaithfulSeq(s, number.rest, number.rest[1..], prev, "[" + Decimal(number.value), "]");
  }

  lemma Bracketed(x: string, y: string)
    ensures x + ("[" + y + "]") == x + "[" + y + "]"
  {
  }

  lemma ParsedSegment(s: string, prev: char)
    requires ComponentSegment(s).Done?
    ensures var r := ComponentSegment(s);
            WellFormedSegment(r.value) && Faithful(s, r.rest, prev, PrintSegment(r.value))
  {
    ParsedName(s, prev);
    var name := Identifier(s);
    var index := OptIndex(name.rest);
    SegmentIs(s, name.value, name.rest, index.value, index.rest);
    if index.value.Some? {
      ParsedIndex(name.rest, LastOr(Used(s, name.rest), prev));
      FaithfulSeq(s, name.rest, index.rest, prev, name.value, "[" + Decimal(index.value.value) + "]");
      Bracketed(name.value, Decimal(index.value.value));
    }
  }

  lemma DottedFaithful(s: string, mid: string, rest: string, prev: char, p1: string, p2: string)
    requires Faithful(s, mid, prev, p1) && StartsWith(mid, '.') && Faithful(mid[1..], rest, '.', p2)
    ensures Faithful(s, rest, prev, p1 + "." + p2)
  {
    FaithfulChar(mid, LastOr(Used(s, mid), prev));
    FaithfulSeq(s, mid, mid[1..], prev, p1, ".");
    FaithfulSeq(s, mid[1..], rest, prev, p1 + ".", p2);
  }

  lemma {:induction false} ParsedSegments(s: string, prev: char)
    requires Segments(s).Done?
    ensures var r := Segments(s);
            && r.value != [] && (forall seg :: seg in r.value ==> WellFormedSegment(seg))
            && Faithful(s, r.rest, prev, PrintSegments(r.value))
    decreases |s|
  {
    ParsedSegment(s, prev);
    var first := ComponentSegment(s);
    if StartsWith(first.rest, '.') && Segments(first.rest[1..]).Done? {
      var more := Segments(first.rest[1..]);
      ParsedSegments(first.rest[1..], '.');
      DottedFaithful(s, first.rest, more.rest, prev, PrintSegment(first.value), PrintSegments(more.value));
      assert Segments(s).value[1..] == more.value;
    }
  }

  lemma ParsedComponentField(s: string, prev: char)
    requires ComponentOrWildcard(s).Done?
    ensures var r := ComponentOrWildcard(s);
            && (r.value.Path? ==>
                  r.value.segments != [] && forall seg :: seg in r.value.segments ==> WellFormedSegment(seg))
            && Faithful(s, r.rest, prev, PrintComponent(r.value))
  {
    if StartsWith(s, '*') {
      FaithfulChar(s, prev);
    } else {
      ParsedSegments(s, prev);
    }
  }

  /** `s` up to `t`, which stands right behind a colon, prints as `printed`. */
  predicate UpTo(s: string, t: string, printed: string) {
    Faithful(s, t, ' ', printed) && LastOr(Used(s, t), ' ') == ':'
  }

  lemma ColonFaithful(s: string, rest: string, printed: string)
    requires Faithful(s, rest, ' ', printed) && StartsWith(rest, ':')
    ensures UpTo(s, rest[1..], printed + ":")
  {
    FaithfulChar(rest, LastOr(Used(s, rest), ' '));
    FaithfulSeq(s, rest, rest[1..], ' ', printed, ":");
  }

  /** One more field and its colon. */
  lemma FieldUpTo<T>(s: string, t: string, printed: string, r: Parsed<T>, field: string)
    requires UpTo(s, t, printed) && AfterColon(r).Some? && Faithful(t, r.rest, ':', field)
    ensures UpTo(s, r.rest[1..], printed + (field + ":"))
  {
    FaithfulSeq(s, t, r.rest, ' ', printed, field);
    ColonFaithful(s, r.rest, printed + field);
    assert printed + field + ":" == printed + (field + ":");
  }

  lemma FirstUpTo<T>(s: string, r: Parsed<T>, field: string)
    requires AfterColon(r).Some? && Faithful(s, r.rest, ' ', field)
    ensures UpTo(s, r.rest[1..], field + ":")
  {
    ColonFaithful(s, r.rest, field);
  }

  lemma ParsedCoordinates(s: string)
    requires Coordinates(s).Some?
    ensures var (model, rank, layer, rest) := Coordinates(s).value;
            && (model.Name? ==> WellFormedName(model.name))
            && (rank.Num? ==> rank.num < U32_LIMIT) && (layer.Num? ==> layer.num < U32_LIMIT)
            && UpTo(s, rest, PrintName(model) + ":" + (PrintNum(rank) + ":") + (PrintNum(layer) + ":"))
  {
    var (model, rank, layer, rest) := Coordinates(s).value;
    var s1 := AfterColon(NameOrWildcard(s)).value;
    var s2 := AfterColon(NumOrWildcard(s1)).value;
    ParsedNameField(s, ' ');
    FirstUpTo(s, NameOrWildcard(s), PrintName(model));
    ParsedNumField(s1, ':');
    FieldUpTo(s, s1, PrintName(model) + ":", NumOrWildcard(s1), PrintNum(rank));
    ParsedNumField(s2, ':');
    FieldUpTo(s, s2, PrintName(model) + ":" + (PrintNum(rank) + ":"), NumOrWildcard(s2), PrintNum(layer));
  }

  /** One more field and its colon, behind the start of the second half. */
  lemma ParsedTarget(s: string, t: string, printed: string)
    requires UpTo(s, t, printed) && Target(t).Some?
    ensures var (component, callIndex, event) := Target(t).value;
            && (component.Path? ==> component.segments != []
                                    && forall seg :: seg in component.segments ==> WellFormedSegment(seg))
            && (callIndex.Num? ==> callIndex.num < U32_LIMIT) && (event.Name? ==> WellFormedName(event.name))
            && Canon(s, ' ')
            == printed + (PrintComponent(component) + ":") + (PrintNum(callIndex) + ":") + PrintName(event)
  {
    var (component, callIndex, event) := Target(t).value;
    var t1 := AfterColon(ComponentOrWildcard(t)).value;
    var t2 := AfterColon(NumOrWildcard(t1)).value;
    var q1 := printed + (PrintComponent(component) + ":");
    ParsedComponentField(t, ':');
    FieldUpTo(s, t, printed, ComponentOrWildcard(t), PrintComponent(component));
    ParsedNumField(t1, ':');
    FieldUpTo(s, t1, q1, NumOrWildcard(t1), PrintNum(callIndex));
    ParsedNameField(t2, ':');
    FaithfulSeq(s, t2, [], ' ', q1 + (PrintNum(callIndex) + ":"), PrintName(event));
    assert Used(s, []) == s;
  }

  lemma Slide(x: string, y: string, z: string)
    ensures x + (y + ":") + z == x + (y + (":" + z))
  {
  }

  /** Fields with their colons behind them or before them: the same text. */
  lemma Regroup(a: string, b: string, c: string, d: string, e: string, f: string)
    ensures a + ":" + (b + ":") + (c + ":") + (d + ":") + (e + ":") + f
         == a + (":" + (b + (":" + (c + (":" + (d + (":" + (e + (":" + f)))))))))
  {
    var f1 := e + (":" + f);
    var f2 := d + (":" + f1);
    var f3 := c + (":" + f2);
    var f4 := b + (":" + f3);
    Slide(a + ":" + (b + ":") + (c + ":") + (d + ":"), e, f);
    Slide(a + ":" + (b + ":") + (c + ":"), d, f1);
    Slide(a + ":" + (b + ":"), c, f2);
    Slide(a + ":", b, f3);
    assert a + ":" + f4 == a + (":" + f4);
  }

  /**
   Every string that parses is the print of the point it parses to, up to redundant leading
   zeros, and that point is well formed.
   */
  lemma ParseThenPrint(s: string)
    requires Parse(s).Some?
    ensures WellFormed(Parse(s).value) && Print(Parse(s).value) == Canon(s, ' ')
  {
    var p := Parse(s).value;
    var q := PrintName(p.model) + ":" + (PrintNum(p.rank) + ":") + (PrintNum(p.layer) + ":");
    ParsedCoordinates(s);
    ParsedTarget(s, Coordinates(s).value.3, q);
    Regroup(PrintName(p.model), PrintNum(p.rank), PrintNum(p.layer), PrintComponent(p.component),
            PrintNum(p.callIndex), PrintName(p.event));
  }

  // ----- leading zeros never matter -----

  /** The canonical text starts as the text does, except that a leading digit may be another one. */
  lemma {:induction false} CanonFirst(s: string, prev: char)
    ensures s == [] <==> Canon(s, prev) == []
    ensures s != [] ==> Canon(s, prev)[0] == s[0] || (NumberStart(prev) && IsDigit(s[0]) && IsDigit(Canon(s, prev)[0]))
  {
    if NumberStart(prev) && |s| > 1 && s[0] == '0' && IsDigit(s[1]) {
      CanonFirst(s[1..], prev);
    }
  }

  lemma CanonStarts(s: string, prev: char, c: char)
    requires !IsDigit(c)
    ensures StartsWith(Canon(s, prev), c) <==> StartsWith(s, c)
    ensures StartsWith(s, c) ==> Canon(s, prev)[1..] == Canon(s[1..], c)
  {
    CanonFirst(s, prev);
  }

  /** `r` is what a parser makes of `s`, and `r'` what it makes of the canonical form of `s`. */
  ghost predicate Agree<T>(r: Parsed<T>, r': Parsed<T>, s: string, prev: char) {
    match r
    case Done(v, rest) => IsSuffix(rest, s) && r' == Done(v, Canon(rest, LastOr(Used(s, rest), prev)))
    case Backtrack => r' == Backtrack
    case Cut => r' == Cut
  }

  predicate IsSuffix(rest: string, s: string) { |rest| <= |s| && s == Used(s, rest) + rest }

  lemma SuffixSeq(s: string, r1: string, r2: string, prev: char)
    requires IsSuffix(r1, s) && IsSuffix(r2, r1)
    ensures IsSuffix(r2, s) && LastOr(Used(s, r2), prev) == LastOr(Used(r1, r2), LastOr(Used(s, r1), prev))
  {
    assert s == Used(s, r1) + Used(r1, r2) + r2;
    assert Used(s, r2) == Used(s, r1) + Used(r1, r2);
  }

  lemma SuffixTail(s: string)
    requires s != []
    ensures IsSuffix(s[1..], s) && Used(s, s[1..]) == [s[0]]
  {
  }

  lemma CanonName(x: string, y: string, prev: char)
    requires WellFormedName(x) && Ends(y, IsIdent)
    ensures Identifier(Canon(x + y, prev)) == Done(x, Canon(y, x[|x| - 1]))
  {
    CanonConcat(x, y, prev);
    CanonPlain(x, prev);
    CanonFirst(y, x[|x| - 1]);
    PrintedName(x, Canon(y, x[|x| - 1]));
  }

  lemma NoName(s: string)
    requires s == [] || !IsAlpha(s[0])
    ensures Identifier(s) == Backtrack
  {
  }

  lemma AgreeSplit(x: string, y: string, prev: char)
    requires WellFormedName(x) && Ends(y, IsIdent)
    ensures Agree(Done(x, y), Identifier(Canon(x + y, prev)), x + y, prev)
  {
    CanonName(x, y, prev);
    assert Used(x + y, y) == x;
  }

  /** An identifier at the start, and what is behind it. */
  lemma AgreeAlpha(s: string, prev: char)
    requires s != [] && IsAlpha(s[0])
    ensures Agree(Identifier(s), Identifier(Canon(s, prev)), s, prev)
  {
    IdentifierIs(s);
    var n := Span(s, IsIdent);
    assert s == s[..n] + s[n..];
    AgreeSplit(s[..n], s[n..], prev);
  }

  lemma AgreeName(s: string, prev: char)
    ensures Agree(Identifier(s), Identifier(Canon(s, prev)), s, prev)
  {
    if s != [] && IsAlpha(s[0]) {
      AgreeAlpha(s, prev);
    } else {
      CanonFirst(s, prev);
      NoName(s);
      NoName(Canon(s, prev));
    }
  }

  /** The number parser on a numeral of its own choosing. */
  lemma NumberIs(d: string, rest: string)
    requires d != [] && AllDigits(d) && Ends(rest, IsDigit)
    ensures NonNegInteger(d + rest) == if Value(d) < U32_LIMIT then Done(Value(d), rest) else Cut
  {
    SpanIs(d + rest, IsDigit, |d|);
    assert (d + rest)[..|d|] == d && (d + rest)[|d|..] == rest;
  }

  lemma AgreeNumber(s: string, prev: char)
    requires NumberStart(prev)
    ensures Agree(NonNegInteger(s), NonNegInteger(Canon(s, prev)), s, prev)
  {
    var n := Span(s, IsDigit);
    CanonFirst(s, prev);
    if n > 0 {
      var d, y := s[..n], s[n..];
      assert s == d + y && Used(s, y) == d && AllDigits(d);
      NumberIs(d, y);
      CanonConcat(d, y, prev);
      CanonNumber(d, prev);
      CanonFirst(y, d[n - 1]);
      ValueOfDecimal(Value(d));
      NumberIs(Decimal(Value(d)), Canon(y, d[n - 1]));
    }
  }

  lemma AgreeIndex(s: string, prev: char)
    ensures Agree(OptIndex(s), OptIndex(Canon(s, prev)), s, prev)
  {
    CanonStarts(s, prev, '[');
    assert Used(s, s) == [];
    if StartsWith(s, '[') {
      SuffixTail(s);
      AgreeNumber(s[1..], '[');
      var number := NonNegInteger(s[1..]);
      if number.Done? {
        SuffixSeq(s, s[1..], number.rest, prev);
        CanonStarts(number.rest, LastOr(Used(s, number.rest), prev), ']');
        if StartsWith(number.rest, ']') {
          SuffixTail(number.rest);
          SuffixSeq(s, number.rest, number.rest[1..], prev);
        }
      }
    }
  }

  lemma AgreeSegment(s: string, prev: char)
    ensures Agree(ComponentSegment(s), ComponentSegment(Canon(s, prev)), s, prev)
  {
    AgreeName(s, prev);
    var name := Identifier(s);
    if name.Done? {
      AgreeIndex(name.rest, LastOr(Used(s, name.rest), prev));
      var index := OptIndex(name.rest);
      if index.Done? {
        SuffixSeq(s, name.rest, index.rest, prev);
      }
    }
  }

  lemma {:induction false} AgreeSegments(s: string, prev: char)
    ensures Agree(Segments(s), Segments(Canon(s, prev)), s, prev)
    decreases |s|
  {
    AgreeSegment(s, prev);
    var first := ComponentSegment(s);
    if first.Done? {
      var rest := first.rest;
      CanonStarts(rest, LastOr(Used(s, rest), prev), '.');
      if StartsWith(rest, '.') {
        SuffixTail(rest);
        SuffixSeq(s, rest, rest[1..], prev);
        AgreeSegments(rest[1..], '.');
        var more := Segments(rest[1..]);
        if more.Done? {
          SuffixSeq(s, rest[1..], more.rest, prev);
        }
      }
    }
  }

  lemma AgreeNameField(s: string, prev: char)
    ensures Agree(NameOrWildcard(s), NameOrWildcard(Canon(s, prev)), s, prev)
  {
    CanonStarts(s, prev, '*');
    if StartsWith(s, '*') {
      SuffixTail(s);
    } else {
      AgreeName(s, prev);
    }
  }

  lemma AgreeNumField(s: string, prev: char)
    requires NumberStart(prev)
    ensures Agree(NumOrWildcard(s), NumOrWildcard(Canon(s, prev)), s, prev)
  {
    CanonStarts(s, prev, '*');
    if StartsWith(s, '*') {
      SuffixTail(s);
    } else {
      AgreeNumber(s, prev);
    }
  }

  lemma AgreeComponentField(s: string, prev: char)
    ensures Agree(ComponentOrWildcard(s), ComponentOrWildcard(Canon(s, prev)), s, prev)
  {
    CanonStarts(s, prev, '*');
    if StartsWith(s, '*') {
      SuffixTail(s);
    } else {
      AgreeSegments(s, prev);
    }
  }

  lemma AgreeColon<T>(r: Parsed<T>, r': Parsed<T>, s: string, prev: char)
    requires Agree(r, r', s, prev)
    ensures AfterColon(r') == if AfterColon(r).Some? then Some(Canon(AfterColon(r).value, ':')) else None
    ensures AfterColon(r).Some? ==> r'.value == r.value
  {
    if r.Done? {
      CanonStarts(r.rest, LastOr(Used(s, r.rest), prev), ':');
    }
  }

  lemma AgreeCoordinates(s: string)
    ensures Coordinates(Canon(s, ' '))
         == match Coordinates(s)
            case None => None
            case Some((model, rank, layer, rest)) => Some((model, rank, layer, Canon(rest, ':')))
  {
    var model := NameOrWildcard(s);
    AgreeNameField(s, ' ');
    AgreeColon(model, NameOrWildcard(Canon(s, ' ')), s, ' ');
    if AfterColon(model).Some? {
      var s1 := AfterColon(model).value;
      var rank := NumOrWildcard(s1);
      AgreeNumField(s1, ':');
      AgreeColon(rank, NumOrWildcard(Canon(s1, ':')), s1, ':');
      if AfterColon(rank).Some? {
        var s2 := AfterColon(rank).value;
        AgreeNumField(s2, ':');
        AgreeColon(NumOrWildcard(s2), NumOrWildcard(Canon(s2, ':')), s2, ':');
      }
    }
  }

  lemma AgreeTarget(s: string)
    ensures Target(Canon(s, ':')) == Target(s)
  {
    var component := ComponentOrWildcard(s);
    AgreeComponentField(s, ':');
    AgreeColon(component, ComponentOrWildcard(Canon(s, ':')), s, ':');
    if AfterColon(component).Some? {
      var s1 := AfterColon(component).value;
      var callIndex := NumOrWildcard(s1);
      AgreeNumField(s1, ':');
      AgreeColon(callIndex, NumOrWildcard(Canon(s1, ':')), s1, ':');
      if AfterColon(callIndex).Some? {
        var s2 := AfterColon(callIndex).value;
        AgreeNameField(s2, ':');
        var event := NameOrWildcard(s2);
        if event.Done? {
          CanonFirst(event.rest, LastOr(Used(s2, event.rest), ':'));
        }
      }
    }
  }

  /** Redundant leading zeros change nothing, whether the string parses or not. */
  lemma ZerosIgnored(s: string)
    ensures Parse(Canon(s, ' ')) == Parse(s)
  {
    AgreeCoordinates(s);
    if Coordinates(s).Some? {
      AgreeTarget(Coordinates(s).value.3);
    }
  }

  /**
   Exactly what the parser accepts, said by the printer: the strings that are the print of a
   well-formed point up to redundant leading zeros, and that point is the result.
   */
  lemma ParsesExactly(s: string, p: ProbePoint)
    ensures Parse(s) == Some(p) <==> WellFormed(p) && Canon(s, ' ') == Print(p)
  {
    if Parse(s) == Some(p) {
      ParseThenPrint(s);
    }
    if WellFormed(p) && Canon(s, ' ') == Print(p) {
      PrintThenParse(p);
      ZerosIgnored(s);
    }
  }

  /** Parsing is stable under printing: parse, print, parse is parse, on every string. */
  lemma ParsePrintParse(s: string)
    requires Parse(s).Some?
    ensures Parse(Print(Parse(s).value)) == Parse(s)
  {
    ParseThenPrint(s);
    PrintThenParse(Parse(s).value);
  }
}
