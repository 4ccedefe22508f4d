/**
 Which requests are cached as ranges, and which responses are accepted for them.
 */
module RangeLaws {
  import opened CacheTypes
  import opened Wrappers
  import opened Strings
  import opened RangeSlice

  function RangeText(a: nat, b: nat): string {
    "bytes=" + Bounds(a, b)
  }

  lemma RangeTextParses(a: nat, b: nat)
    requires a <= U64_MAX && b <= U64_MAX
    ensures ParseRange(RangeText(a, b)) == if a <= b then Some(Range(a, b, a, b)) else None
  {
    BoundsParse(a, b);
    PrefixStrips("bytes=", Bounds(a, b));
  }

  lemma RangeTextIsReadable(a: nat, b: nat)
    requires a <= U64_MAX && b <= U64_MAX
    ensures IsReadable(RangeText(a, b))
  {
    BoundsParse(a, b);
    PlainIsReadable(Bounds(a, b));
    PrefixesAreReadable();
    ReadableConcat("bytes=", Bounds(a, b));
  }

  // The request fits one slice, if there are slices.
  ghost predicate WithinSlice(a: nat, b: nat, size: Option<nat>) {
    size.Some? ==> !Crosses(Range(a, b, a, b), size.value)
  }

  lemma AlignIff(a: nat, b: nat, size: Option<nat>)
    requires ValidSize(size) && a <= b <= U64_MAX
    ensures Align(Range(a, b, a, b), size).Some? <==> WithinSlice(a, b, size)
  {
    if size.Some? {
      AlignedIffWithinSlice(Range(a, b, a, b), size.value);
    }
  }

  /**
   A single `bytes=a-b` is cached as a range exactly if the policy caches ranges, the method is GET or
   HEAD, the range is not empty and it lies within one slice; and then for these very bytes.
   */
  lemma CachedIff(m: Method, a: nat, b: nat, policy: Policy)
    requires ValidSize(policy.sliceSize) && a <= U64_MAX && b <= U64_MAX
    ensures var r := RequestRange(m, [RangeText(a, b)], policy);
            && (r.Some? <==>
                  policy.cachesRanges && (m == Get || m == Head) && a <= b && WithinSlice(a, b, policy.sliceSize))
            && (r.Some? ==> r.value.requestStart == a && r.value.requestEnd == b)
            && (r.Some? && policy.sliceSize.None? ==> r.value.cacheStart == a && r.value.cacheEnd == b)
            && (r.Some? && policy.sliceSize.Some? ==> r.value.cacheStart % policy.sliceSize.value == 0)
  {
    RangeTextParses(a, b);
    RangeTextIsReadable(a, b);
    if a <= b {
      AlignIff(a, b, policy.sliceSize);
      if Align(Range(a, b, a, b), policy.sliceSize).Some? {
        AlignEncloses(Range(a, b, a, b), policy.sliceSize);
      }
    }
  }

  // No Range header, or several, or one with several ranges, is not.
  lemma NotCached(m: Method, ranges: seq<string>, policy: Policy, rest: string)
    requires ValidSize(policy.sliceSize)
    requires |ranges| == 1 ==> StripPrefix(Trim(ranges[0]), "bytes=") == Some(rest) && ',' in rest
    ensures RequestRange(m, ranges, policy) == None
  {
    TrimKeeps(rest, ',');
  }

  lemma {:induction false} TrimStartKeeps(s: string, c: char)
    requires !IsSpace(c) && c in s
    ensures c in TrimStart(s)
  {
    if IsSpace(s[0]) {
      assert s == [s[0]] + s[1..];
      TrimStartKeeps(s[1..], c);
    }
  }

  lemma {:induction false} TrimEndKeeps(s: string, c: char)
    requires !IsSpace(c) && c in s
    ensures c in TrimEnd(s)
  {
    if IsSpace(s[|s| - 1]) {
      assert s == s[..|s| - 1] + [s[|s| - 1]];
      TrimEndKeeps(s[..|s| - 1], c);
    }
  }

  lemma TrimKeeps(s: string, c: char)
    requires !IsSpace(c)
    ensures c in s ==> c in Trim(s)
  {
    if c in s {
      TrimStartKeeps(s, c);
      TrimEndKeeps(TrimStart(s), c);
    }
  }

  lemma RenderedBounds(content: ContentRange)
    requires content.start <= U64_MAX && content.end <= U64_MAX
    requires content.total.Some? ==> content.total.value <= U64_MAX
    ensures ContentBounds(RenderContentRange(content)) == Some(((content.start, content.end), RenderTotal(content.total)))
  {
    var bounds, total := Bounds(content.start, content.end), RenderTotal(content.total);
    BoundsParse(content.start, content.end);
    TotalReadsBack(content.total);
    RenderedIsReadable(bounds, total);
    ContentBoundsReadBack(RenderContentRange(content), bounds, total);
  }

  // A number may have a plus sign; it may not be empty, hold anything but digits, or exceed 64 bits.
  lemma NumbersAccepted(n: nat)
    ensures ParseU64(Decimal(n)) == (if n <= U64_MAX then Some(n) else None)
    ensures ParseU64(['+'] + Decimal(n)) == (if n <= U64_MAX then Some(n) else None)
    ensures ParseU64([]) == None && ParseU64(['+']) == None
  {
    DecimalReadsBack(n);
    assert IsDigit(Decimal(n)[0]);
    assert (['+'] + Decimal(n))[1..] == Decimal(n) && ['+'][1..] == [];
  }

  lemma NonDigitRefused(s: string, i: nat)
    requires i < |s| && !IsDigit(s[i]) && (i > 0 || s[i] != '+')
    ensures ParseU64(s) == None
  {
    if s[0] == '+' {
      assert s[1..][i - 1] == s[i];
    }
  }

  // White space around the bounds does not matter.
  lemma SpacedBoundsParse(s1: string, a: nat, s2: string, s3: string, b: nat, s4: string)
    requires AllSpace(s1) && AllSpace(s2) && AllSpace(s3) && AllSpace(s4) && a <= U64_MAX && b <= U64_MAX
    ensures ParseBounds((s1 + Decimal(a) + s2) + ['-'] + (s3 + Decimal(b) + s4)) == Some((a, b))
  {
    DecimalParses(a);
    DecimalParses(b);
    NoDash(s1, Decimal(a), s2);
    SplitOnceAt(s1 + Decimal(a) + s2, '-', s3 + Decimal(b) + s4);
    TrimTakesEnds(s1, Decimal(a), s2);
    TrimTakesEnds(s3, Decimal(b), s4);
  }

  lemma NoDash(s1: string, digits: string, s2: string)
    requires AllSpace(s1) && AllSpace(s2) && AllDigits(digits)
    ensures '-' !in s1 + digits + s2
  {
    var s := s1 + digits + s2;
    forall i | 0 <= i < |s| ensures s[i] != '-' {
      if i < |s1| {
        assert s[i] == s1[i] && IsSpace(s1[i]);
      } else if i < |s1| + |digits| {
        assert s[i] == digits[i - |s1|] && IsDigit(digits[i - |s1|]);
      } else {
        assert s[i] == s2[i - |s1| - |digits|] && IsSpace(s2[i - |s1| - |digits|]);
      }
    }
  }

  // A response is accepted exactly if it starts where the slice does, reaches the end of the request,
  // and does not go beyond the slice; the announced total does not matter.
  lemma AcceptedIff(range: Range, content: ContentRange)
    requires content.start <= U64_MAX && content.end <= U64_MAX
    requires content.total.Some? ==> content.total.value <= U64_MAX
    ensures Accepts(Some(range), Some(RenderContentRange(content)))
       <==> content.start == range.cacheStart && range.requestEnd <= content.end <= range.cacheEnd
  {
    RenderedBounds(content);
  }

  // Without a cacheable range, without a Content-Range, or without partial content, nothing is cut.
  lemma UncutOtherwise(range: Option<Range>, isPartial: bool, contentRange: Option<string>)
    requires range.Some? ==> WellFormed(range.value)
    requires range.None? || contentRange.None? || !isPartial || !NeedsTrimming(range.value)
    ensures TrimPlan(range, isPartial, contentRange) == Whole
  {
  }

  // A partial response that is accepted and passed on whole is one of which every byte was asked for.
  lemma UncutIsWhollyRequested(range: Range, contentRange: string)
    requires WellFormed(range) && Accepts(Some(range), Some(contentRange))
    requires TrimPlan(Some(range), true, Some(contentRange)) == Whole
    ensures range.requestStart == range.cacheStart && range.requestEnd == range.cacheEnd
  {
  }
}
