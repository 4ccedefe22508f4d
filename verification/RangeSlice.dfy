/**
 Byte-range requests and their cache slices: parsing a `Range` header, aligning it to the
 slice grid, rewriting the header sent upstream, and planning how to cut the requested
 bytes out of the slice that comes back.
 */
module RangeSlice {
  import opened CacheTypes
  import opened Wrappers
  import opened Strings

  // ----- Text -----

  // A header value that reads as text holds visible ASCII, spaces and tabs only.
  predicate IsReadable(value: string) {
    forall i :: 0 <= i < |value| ==> value[i] == '\t' || ' ' <= value[i] <= '~'
  }

  // Nothing to trim at either end.
  predicate IsTight(s: string) {
    s != [] && !IsSpace(s[0]) && !IsSpace(s[|s| - 1])
  }

  function StripPrefix(s: string, prefix: string): Option<string> {
    if |prefix| <= |s| && s[..|prefix|] == prefix then Some(s[|prefix|..]) else None
  }

  // The two sides of the first separator.
  function SplitOnce(s: string, separator: char): Option<(string, string)> {
    if s == [] then None
    else if s[0] == separator then Some(([], s[1..]))
    else match SplitOnce(s[1..], separator)
      case None => None
      case Some((left, right)) => Some(([s[0]] + left, right))
  }

  lemma {:induction false} SplitOnceAt(left: string, separator: char, right: string)
    requires separator !in left
    ensures SplitOnce(left + [separator] + right, separator) == Some((left, right))
  {
    var whole := left + [separator] + right;
    if left == [] {
      assert whole[1..] == right;
    } else {
      SplitOnceAt(left[1..], separator, right);
      assert whole[1..] == left[1..] + [separator] + right;
      assert [left[0]] + left[1..] == left;
    }
  }

  // ----- Decimal numbers -----

  predicate IsDigit(c: char) {
    '0' <= c <= '9'
  }

  predicate AllDigits(s: string) {
    forall i :: 0 <= i < |s| ==> IsDigit(s[i])
  }

  function Value(digits: string): nat
    requires AllDigits(digits)
  {
    if digits == [] then 0
    else Value(digits[..|digits| - 1]) * 10 + (digits[|digits| - 1] as int - '0' as int)
  }

  // One optional plus sign, then at least one digit, and a value that fits 64 bits.
  function ParseU64(s: string): Option<nat> {
    var digits := if s != [] && s[0] == '+' then s[1..] else s;
    if digits != [] && AllDigits(digits) && Value(digits) <= U64_MAX then Some(Value(digits)) else None
  }

  function Digit(d: nat): char
    requires d < 10
  {
    ('0' as int + d) as char
  }

  function Decimal(n: nat): string {
    if n < 10 then [Digit(n)] else Decimal(n / 10) + [Digit(n % 10)]
  }

  lemma {:induction false} DecimalReadsBack(n: nat)
    ensures Decimal(n) != [] && AllDigits(Decimal(n)) && Value(Decimal(n)) == n
  {
    if n < 10 {
      assert Value([]) == 0 && Decimal(n)[..0] == [];
    } else {
      DecimalReadsBack(n / 10);
      assert Decimal(n)[..|Decimal(n)| - 1] == Decimal(n / 10);
    }
  }

  lemma DecimalParses(n: nat)
    requires n <= U64_MAX
    ensures ParseU64(Decimal(n)) == Some(n) && IsTight(Decimal(n)) && AllDigits(Decimal(n))
  {
    DecimalReadsBack(n);
    assert IsDigit(Decimal(n)[0]);
  }

  // ----- Ranges -----

  datatype Range = Range(requestStart: nat, requestEnd: nat, cacheStart: nat, cacheEnd: nat)

  ghost predicate WellFormed(range: Range) {
    range.cacheStart <= range.requestStart <= range.requestEnd <= range.cacheEnd <= U64_MAX
  }

  // `a-b`, both sides trimmed. An empty side does not parse as a number.
  function ParseBounds(text: string): (r: Option<(nat, nat)>)
    ensures r.Some? ==> r.value.0 <= U64_MAX && r.value.1 <= U64_MAX
  {
    match SplitOnce(text, '-')
    case None => None
    case Some((left, right)) =>
      match (ParseU64(Trim(left)), ParseU64(Trim(right)))
      case (Some(start), Some(end)) => Some((start, end))
      case _ => None
  }

  function Bounds(start: nat, end: nat): string {
    Decimal(start) + ['-'] + Decimal(end)
  }

  lemma BoundsParse(start: nat, end: nat)
    requires start <= U64_MAX && end <= U64_MAX
    ensures ParseBounds(Bounds(start, end)) == Some((start, end))
    ensures IsTight(Bounds(start, end))
    ensures forall c <- Bounds(start, end) :: IsDigit(c) || c == '-'
  {
    DecimalParses(start);
    DecimalParses(end);
    SplitOnceAt(Decimal(start), '-', Decimal(end));
  }

  function ParseRange(value: string): Option<Range> {
    match StripPrefix(Trim(value), "bytes=")
    case None => None
    case Some(rest) =>
      var bounds := Trim(rest);
      if ',' in bounds then None
      else match ParseBounds(bounds)
        case Some((start, end)) => if start <= end then Some(Range(start, end, start, end)) else None
        case None => None
  }

  function UpstreamHeader(range: Range): string {
    "bytes=" + Bounds(range.cacheStart, range.cacheEnd)
  }

  lemma HeaderParses(range: Range)
    requires WellFormed(range)
    ensures ParseRange(UpstreamHeader(range))
         == Some(Range(range.cacheStart, range.cacheEnd, range.cacheStart, range.cacheEnd))
  {
    var bounds := Bounds(range.cacheStart, range.cacheEnd);
    BoundsParse(range.cacheStart, range.cacheEnd);
    PrefixStrips("bytes=", bounds);
  }

  lemma PrefixStrips(prefix: string, rest: string)
    requires prefix != [] && !IsSpace(prefix[0]) && IsTight(rest)
    ensures Trim(prefix + rest) == prefix + rest
    ensures StripPrefix(prefix + rest, prefix) == Some(rest)
  {
    var s := prefix + rest;
    assert s[0] == prefix[0] && s[|s| - 1] == rest[|rest| - 1];
    assert s[..|prefix|] == prefix && s[|prefix|..] == rest;
  }

  // ----- Slices -----

  // A configured slice size is never zero.
  ghost predicate ValidSize(size: Option<nat>) {
    size.Some? ==> 0 < size.value <= U64_MAX
  }

  function Align(range: Range, size: Option<nat>): Option<Range>
    requires ValidSize(size)
  {
    match size
    case None => Some(range)
    case Some(n) =>
      var start := range.requestStart / n * n;
      var end := SaturatingAdd(start, SaturatingSub(n, 1));
      if range.requestEnd <= end then Some(range.(cacheStart := start, cacheEnd := end)) else None
  }

  // A request as parsed: its cache range is itself.
  ghost predicate IsPlain(range: Range) {
    WellFormed(range) && range.cacheStart == range.requestStart && range.cacheEnd == range.requestEnd
  }

  lemma AlignEncloses(range: Range, size: Option<nat>)
    requires ValidSize(size) && IsPlain(range) && Align(range, size).Some?
    ensures WellFormed(Align(range, size).value)
    ensures Align(range, size).value.requestStart == range.requestStart
    ensures Align(range, size).value.requestEnd == range.requestEnd
    ensures size.Some? ==> Align(range, size).value.cacheStart % size.value == 0
  {
    if size.Some? {
      var n, q := size.value, range.requestStart / size.value;
      SliceHolds(range.requestStart, n);
      Quotient(q, n);
    }
  }

  lemma {:induction false} LaterSlice(q: nat, k: nat, n: nat)
    requires q < k
    ensures q * n + n <= k * n
    decreases k
  {
    var j: nat := k - 1;
    assert k * n == j * n + n;
    if q < j {
      LaterSlice(q, j, n);
    }
  }

  lemma SliceHolds(start: nat, n: nat)
    requires n > 0
    ensures start / n * n <= start < start / n * n + n
  {
    assert start == start / n * n + start % n;
  }

  lemma Quotient(q: nat, n: nat)
    requires n > 0
    ensures (q * n) / n == q && (q * n) % n == 0
  {
    var p := (q * n) / n;
    SliceHolds(q * n, n);
    if p < q {
      LaterSlice(p, q, n);
    } else if q < p {
      LaterSlice(q, p, n);
    }
  }

  // A slice boundary falls inside the range.
  ghost predicate Crosses(range: Range, n: nat) {
    exists k: nat :: range.requestStart < k * n <= range.requestEnd
  }

  /**
   A range can be served from one slice exactly when no slice boundary falls inside it.
   This holds to the end of the 64-bit space, where the last slice may be cut short.
   */
  lemma AlignedIffWithinSlice(range: Range, n: nat)
    requires 0 < n <= U64_MAX && IsPlain(range)
    ensures Align(range, Some(n)).Some? <==> !Crosses(range, n)
  {
    var q := range.requestStart / n;
    var next := q + 1;
    SliceHolds(range.requestStart, n);
    LaterSlice(q, next, n);
    if Crosses(range, n) {
      var k: nat :| range.requestStart < k * n <= range.requestEnd;
      BeyondSlice(q, k, n);
    } else {
      assert next * n == q * n + n;
      assert !(range.requestStart < next * n <= range.requestEnd);
    }
  }

  // A multiple above q * n is at least (q + 1) * n.
  lemma BeyondSlice(q: nat, k: nat, n: nat)
    requires q * n < k * n
    ensures q * n + n <= k * n
  {
    if q < k {
      LaterSlice(q, k, n);
    } else if k < q {
      LaterSlice(k, q, n);
    }
  }

  // An earlier slice ends before a later one starts, and is not cut short.
  lemma SlicesApart(p: nat, q: nat, n: nat)
    requires p < q && 0 < n && q * n <= U64_MAX
    ensures SaturatingAdd(p * n, SaturatingSub(n, 1)) < q * n
  {
    LaterSlice(p, q, n);
  }

  /**
   Two requests are kept under the same cache range when they start in the same slice,
   and otherwise under ranges that share no byte.
   */
  lemma SlicesEqualOrDisjoint(a: Range, b: Range, n: nat)
    requires 0 < n <= U64_MAX && IsPlain(a) && IsPlain(b)
    requires Align(a, Some(n)).Some? && Align(b, Some(n)).Some?
    ensures var x, y := Align(a, Some(n)).value, Align(b, Some(n)).value;
            if a.requestStart / n == b.requestStart / n
            then x.cacheStart == y.cacheStart && x.cacheEnd == y.cacheEnd
            else x.cacheEnd < y.cacheStart || y.cacheEnd < x.cacheStart
  {
    var p, q := a.requestStart / n, b.requestStart / n;
    SliceHolds(a.requestStart, n);
    SliceHolds(b.requestStart, n);
    if p < q {
      SlicesApart(p, q, n);
    } else if q < p {
      SlicesApart(q, p, n);
    }
  }

  lemma AlignTwice(range: Range, size: Option<nat>)
    requires ValidSize(size) && IsPlain(range) && Align(range, size).Some?
    ensures var r := Align(range, size).value;
            var whole := Range(r.cacheStart, r.cacheEnd, r.cacheStart, r.cacheEnd);
            IsPlain(whole) && Align(whole, size) == Some(whole)
  {
    AlignEncloses(range, size);
    if size.Some? {
      Quotient(range.requestStart / size.value, size.value);
    }
  }

  // ----- Requests -----

  datatype Method = Get | Head | Other

  datatype Policy = Policy(cachesRanges: bool, convertHead: bool, sliceSize: Option<nat>)

  function CacheMethod(m: Method, policy: Policy): Method {
    if m == Head && policy.convertHead then Get else m
  }

  // The range to cache for a request with these `Range` header values.
  function RequestRange(m: Method, ranges: seq<string>, policy: Policy): (r: Option<Range>)
    requires ValidSize(policy.sliceSize)
    ensures r.Some? ==> WellFormed(r.value)
  {
    if !policy.cachesRanges || CacheMethod(m, policy) == Other then None
    else if |ranges| != 1 || !IsReadable(ranges[0]) then None
    else match ParseRange(ranges[0])
      case None => None
      case Some(range) =>
        assert Align(range, policy.sliceSize).Some? ==> WellFormed(Align(range, policy.sliceSize).value) by {
          if Align(range, policy.sliceSize).Some? { AlignEncloses(range, policy.sliceSize); }
        }
        Align(range, policy.sliceSize)
  }

  // The `Range` header values sent upstream.
  function Upstream(m: Method, ranges: seq<string>, policy: Policy): seq<string>
    requires ValidSize(policy.sliceSize)
  {
    match RequestRange(m, ranges, policy)
    case None => ranges
    case Some(range) => [UpstreamHeader(range)]
  }

  lemma PlainIsReadable(s: string)
    requires forall c <- s :: IsDigit(c) || c == '-' || c == '*'
    ensures IsReadable(s)
  {
    forall i | 0 <= i < |s| ensures ' ' <= s[i] <= '~' {
      assert s[i] in s;
    }
  }

  lemma ReadableConcat(a: string, b: string)
    requires IsReadable(a) && IsReadable(b)
    ensures IsReadable(a + b)
  {
  }

  lemma PrefixesAreReadable()
    ensures IsReadable("bytes=") && IsReadable("bytes ")
  {
  }

  lemma HeaderIsReadable(range: Range)
    requires WellFormed(range)
    ensures IsReadable(UpstreamHeader(range))
  {
    BoundsParse(range.cacheStart, range.cacheEnd);
    var bounds := Bounds(range.cacheStart, range.cacheEnd);
    PlainIsReadable(bounds);
    PrefixesAreReadable();
    ReadableConcat("bytes=", bounds);
  }

  /**
   The rewritten request asks for exactly the slice: parsing its header again gives that
   slice both as the request and as the cache range, so rewriting twice changes nothing.
   */
  lemma RewriteIsFixpoint(m: Method, ranges: seq<string>, policy: Policy)
    requires ValidSize(policy.sliceSize)
    ensures var r, upstream := RequestRange(m, ranges, policy), Upstream(m, ranges, policy);
            RequestRange(m, upstream, policy)
              == (if r.None? then None
                  else Some(Range(r.value.cacheStart, r.value.cacheEnd, r.value.cacheStart, r.value.cacheEnd)))
            && Upstream(m, upstream, policy) == upstream
  {
    var r := RequestRange(m, ranges, policy);
    if r.Some? {
      HeaderParses(r.value);
      HeaderIsReadable(r.value);
      AlignTwice(ParseRange(ranges[0]).value, policy.sliceSize);
    }
  }

  // The cache-key suffix tells cache ranges apart.
  function KeySuffix(range: Range): string {
    "|range:" + Bounds(range.cacheStart, range.cacheEnd)
  }

  lemma KeySuffixIsInjective(a: Range, b: Range)
    requires WellFormed(a) && WellFormed(b) && KeySuffix(a) == KeySuffix(b)
    ensures a.cacheStart == b.cacheStart && a.cacheEnd == b.cacheEnd
  {
    BoundsParse(a.cacheStart, a.cacheEnd);
    BoundsParse(b.cacheStart, b.cacheEnd);
    assert KeySuffix(a)[7..] == Bounds(a.cacheStart, a.cacheEnd);
    assert KeySuffix(b)[7..] == Bounds(b.cacheStart, b.cacheEnd);
  }

  // ----- The header map, edited in place -----

  const RANGE := "range"

  class Headers {
    var values: map<string, seq<string>>

    constructor (values: map<string, seq<string>>)
      ensures this.values == values
    {
      this.values := values;
    }

    method ApplyUpstreamRange(m: Method, policy: Policy)
      requires ValidSize(policy.sliceSize)
      modifies this
      ensures var ranges := if RANGE in old(values) then old(values)[RANGE] else [];
              values == if RequestRange(m, ranges, policy).None? then old(values)
                        else old(values)[RANGE := Upstream(m, ranges, policy)]
    {
      var ranges := if RANGE in values then values[RANGE] else [];
      var range := RequestRange(m, ranges, policy);
      if range.None? {
        return;
      }
      values := values - {RANGE};
      values := values[RANGE := [UpstreamHeader(range.value)]];
    }
  }

  // ----- The slice that comes back -----

  datatype ContentRange = ContentRange(start: nat, end: nat, total: Option<nat>)

  // The bounds and the text after the slash of a `Content-Range` value.
  function ContentBounds(value: string): (r: Option<((nat, nat), string)>)
    ensures r.Some? ==> r.value.0.0 <= U64_MAX && r.value.0.1 <= U64_MAX
  {
    if !IsReadable(value) then None
    else match StripPrefix(Trim(value), "bytes ")
      case None => None
      case Some(rest) =>
        match SplitOnce(rest, '/')
        case None => None
        case Some((bounds, total)) =>
          match ParseBounds(bounds)
          case None => None
          case Some(pair) => Some((pair, total))
  }

  // The response covers the slice from its start to at least the end of the request.
  predicate Accepts(range: Option<Range>, contentRange: Option<string>) {
    range.Some? && contentRange.Some? && ContentBounds(contentRange.value).Some?
    && var (bounds, _) := ContentBounds(contentRange.value).value;
       bounds.0 == range.value.cacheStart
       && range.value.requestEnd <= bounds.1 <= range.value.cacheEnd
  }

  predicate IsStar(text: string) {
    |text| == 1 && text[0] == '*'
  }

  function ParseTotal(text: string): Option<Option<nat>> {
    if IsStar(Trim(text)) then Some(None)
    else match ParseU64(Trim(text))
      case None => None
      case Some(n) => Some(Some(n))
  }

  function ParseContentRange(value: string): Option<ContentRange> {
    match ContentBounds(value)
    case None => None
    case Some((bounds, text)) =>
      match ParseTotal(text)
      case None => None
      case Some(total) => Some(ContentRange(bounds.0, bounds.1, total))
  }

  function RenderTotal(total: Option<nat>): string {
    match total
    case None => ['*']
    case Some(n) => Decimal(n)
  }

  function RenderContentRange(range: ContentRange): string {
    "bytes " + (Bounds(range.start, range.end) + ['/'] + RenderTotal(range.total))
  }

  datatype Plan =
    | Whole // pass the response on as it is
    | Invalid // the stored Content-Range is broken
    | Cut(skip: nat, emit: nat, contentRange: string)

  predicate NeedsTrimming(range: Range) {
    range.requestStart != range.cacheStart || range.requestEnd != range.cacheEnd
  }

  function TrimPlan(range: Option<Range>, isPartial: bool, contentRange: Option<string>): Plan
    requires range.Some? ==> WellFormed(range.value)
  {
    if range.None? || !NeedsTrimming(range.value) then Whole
    else if !isPartial || !Accepts(range, contentRange) then Whole
    else match ParseContentRange(contentRange.value)
      case None => Invalid
      case Some(cached) =>
        var start := range.value.requestStart;
        var end := if range.value.requestEnd <= cached.end then range.value.requestEnd else cached.end;
        if cached.start != range.value.cacheStart || start < cached.start || start > end then Invalid
        else
          Cut(start - cached.start, end - start + 1,
               RenderContentRange(ContentRange(start, end, cached.total)))
  }

  lemma TotalReadsBack(total: Option<nat>)
    requires total.Some? ==> total.value <= U64_MAX
    ensures ParseTotal(RenderTotal(total)) == Some(total)
    ensures IsTight(RenderTotal(total))
    ensures forall c <- RenderTotal(total) :: IsDigit(c) || c == '*'
  {
    if total.Some? {
      DecimalParses(total.value);
    }
  }

  lemma RenderedIsReadable(bounds: string, total: string)
    requires forall c <- bounds :: IsDigit(c) || c == '-'
    requires forall c <- total :: IsDigit(c) || c == '*'
    ensures IsReadable("bytes " + (bounds + ['/'] + total))
  {
    PlainIsReadable(bounds);
    PlainIsReadable(total);
    ReadableConcat(bounds, ['/']);
    ReadableConcat(bounds + ['/'], total);
    PrefixesAreReadable();
    ReadableConcat("bytes ", bounds + ['/'] + total);
  }

  lemma TightAround(left: string, separator: char, right: string)
    requires IsTight(left) && IsTight(right)
    ensures IsTight(left + [separator] + right)
  {
    var whole := left + [separator] + right;
    assert whole[0] == left[0] && whole[|whole| - 1] == right[|right| - 1];
  }

  lemma ContentBoundsReadBack(value: string, bounds: string, total: string)
    requires value == "bytes " + (bounds + ['/'] + total) && IsReadable(value)
    requires IsTight(bounds) && IsTight(total) && '/' !in bounds && ParseBounds(bounds).Some?
    ensures ContentBounds(value) == Some((ParseBounds(bounds).value, total))
  {
    SplitOnceAt(bounds, '/', total);
    TightAround(bounds, '/', total);
    PrefixStrips("bytes ", bounds + ['/'] + total);
  }

  lemma ContentRangeReadsBack(range: ContentRange)
    requires range.start <= U64_MAX && range.end <= U64_MAX
    requires range.total.Some? ==> range.total.value <= U64_MAX
    ensures ParseContentRange(RenderContentRange(range)) == Some(range)
  {
    var bounds, total := Bounds(range.start, range.end), RenderTotal(range.total);
    BoundsParse(range.start, range.end);
    TotalReadsBack(range.total);
    RenderedIsReadable(bounds, total);
    ContentBoundsReadBack(RenderContentRange(range), bounds, total);
  }

  /**
   An accepted response is cut to exactly the requested bytes. The cut lies inside the body
   that the Content-Range announces, its length fits 64 bits, and the new Content-Range reads
   back as the requested bounds. The plan is invalid exactly when the announced total is
   neither a star nor a number.
   */
  lemma AcceptedResponseIsTrimmed(range: Range, contentRange: string)
    requires WellFormed(range) && NeedsTrimming(range) && Accepts(Some(range), Some(contentRange))
    ensures var (bounds, total) := ContentBounds(contentRange).value;
            match TrimPlan(Some(range), true, Some(contentRange))
            case Whole => false
            case Invalid => ParseTotal(total).None?
            case Cut(skip, emit, header) =>
              ParseTotal(total).Some?
              && bounds.0 + skip == range.requestStart
              && range.requestStart + emit == range.requestEnd + 1
              && 0 < emit <= U64_MAX
              && skip + emit <= bounds.1 - bounds.0 + 1
              && ParseContentRange(header)
                 == Some(ContentRange(range.requestStart, range.requestEnd, ParseTotal(total).value))
  {
    var (bounds, text) := ContentBounds(contentRange).value;
    if ParseTotal(text).Some? {
      var total := ParseTotal(text).value;
      assert ParseContentRange(contentRange) == Some(ContentRange(bounds.0, bounds.1, total));
      ContentRangeReadsBack(ContentRange(range.requestStart, range.requestEnd, total));
    } else {
      assert ParseContentRange(contentRange) == None;
    }
  }

  // The response is accepted and its Content-Range announces a body of this length.
  ghost predicate Announces(range: Range, contentRange: string, length: nat) {
    Accepts(Some(range), Some(contentRange))
    && var (bounds, _) := ContentBounds(contentRange).value;
       length == bounds.1 - bounds.0 + 1
  }

  ghost predicate IsCut(range: Range, contentRange: string, plan: Plan)
    requires WellFormed(range)
  {
    plan.Cut? && plan == TrimPlan(Some(range), true, Some(contentRange))
  }

  lemma CutFitsBody(range: Range, contentRange: string, plan: Plan, length: nat)
    requires WellFormed(range) && Announces(range, contentRange, length) && IsCut(range, contentRange, plan)
    ensures plan.skip == range.requestStart - range.cacheStart
    ensures plan.emit == range.requestEnd - range.requestStart + 1
    ensures plan.skip + plan.emit <= length
  {
    AcceptedResponseIsTrimmed(range, contentRange);
  }
}
