/** The HTTP Range header of a download: one range of bytes, for headers of ASCII characters. */
module RangeHeader {
  import opened Prelude

  // ---- decimal numbers ----

  predicate IsDigit(c: char) {
    '0' <= c <= '9'
  }

  predicate Digits(s: string) {
    forall i :: 0 <= i < |s| ==> IsDigit(s[i])
  }

  function DigitOf(n: nat): char
    requires n < 10
  {
    ['0', '1', '2', '3', '4', '5', '6', '7', '8', '9'][n]
  }

  /** `int(s)`. */
  function Value(s: string): nat
    requires Digits(s)
  {
    if s == "" then 0 else 10 * Value(s[..|s| - 1]) + (s[|s| - 1] as int - '0' as int)
  }

  function Decimal(n: nat): string {
    if n < 10 then [DigitOf(n)] else Decimal(n / 10) + [DigitOf(n % 10)]
  }

  lemma DigitOfIsDigit(n: nat)
    requires n < 10
    ensures IsDigit(DigitOf(n)) && DigitOf(n) as int - '0' as int == n
  {
  }

  lemma ValueOfNext(s: string, c: char)
    requires Digits(s) && IsDigit(c)
    ensures Digits(s + [c]) && Value(s + [c]) == 10 * Value(s) + (c as int - '0' as int)
  {
    assert (s + [c])[..|s|] == s;
  }

  lemma {:induction false} DecimalValue(n: nat)
    ensures Decimal(n) != "" && Digits(Decimal(n)) && Value(Decimal(n)) == n
  {
    DigitOfIsDigit(n % 10);
    assert Value("") == 0;
    hide DigitOf, IsDigit, Value;
    if n < 10 {
      ValueOfNext("", DigitOf(n));
      assert "" + [DigitOf(n)] == [DigitOf(n)];
    } else {
      DecimalValue(n / 10);
      ValueOfNext(Decimal(n / 10), DigitOf(n % 10));
    }
  }

  // ---- the header ----

  const PREFIX := "bytes="

  /** The length of the longest prefix of digits. */
  function DigitCount(s: string): (n: nat)
    ensures n <= |s| && Digits(s[..n])
    ensures n < |s| ==> !IsDigit(s[n])
  {
    if s == "" || !IsDigit(s[0]) then 0
    else
      var n := 1 + DigitCount(s[1..]);
      assert s[..n] == [s[0]] + s[1..][..n - 1];
      n
  }

  /** Where `$` matches: at the end, or before a newline at the end. */
  predicate AtEnd(s: string) {
    s == "" || s == "\n"
  }

  datatype Parts = Parts(first: string, last: string)

  /** `^bytes=(\d+)-(\d+)?$`; `last` is empty if the second group does not take part. */
  function Match(s: string): (r: Option<Parts>)
    ensures r.Some? ==> Digits(r.value.first) && r.value.first != "" && Digits(r.value.last)
  {
    if !(PREFIX <= s) then None
    else
      var rest := s[|PREFIX|..];
      var k := DigitCount(rest);
      if k == 0 || k == |rest| || rest[k] != '-' then None
      else
        var tail := rest[k + 1..];
        var m := DigitCount(tail);
        if AtEnd(tail[m..]) then Some(Parts(rest[..k], tail[..m])) else None
  }

  datatype Bounds = Bounds(start: nat, end: Option<nat>)

  /** `parse_range_header`. */
  function ParseRangeHeader(s: string, fileSize: nat): Option<Bounds> {
    var m := Match(s);
    if m.None? then None
    else
      var start := Value(m.value.first);
      if start >= fileSize then None
      else if m.value.last == "" then Some(Bounds(start, None))
      else
        var end := Value(m.value.last);
        if end >= fileSize || end <= start then None else Some(Bounds(start, Some(end)))
  }

  datatype RangeForFile = RangeForFile(start: nat, end: int, length: int, totalSize: nat, header: string)

  datatype RangeResult = NoRange | Range(r: RangeForFile) | Invalid | TooSmall(length: int)

  /** `get_range`; a missing header reads as an empty one. */
  function GetRange(header: string, totalSize: nat, minimum: int): RangeResult {
    if header == "" then NoRange
    else
      var b := ParseRangeHeader(header, totalSize);
      if b.None? then Invalid
      else
        var end := if b.value.end.Some? then b.value.end.value else totalSize - 1;
        var length := end - b.value.start + 1;
        if length < minimum then TooSmall(length)
        else Range(RangeForFile(b.value.start, end, length, totalSize, header))
  }

  // ---- what is accepted ----

  function Header(first: string, last: string, tail: string): string {
    PREFIX + first + "-" + last + tail
  }

  lemma {:induction false} CountOf(d: string, rest: string)
    requires Digits(d) && (rest == "" || !IsDigit(rest[0]))
    ensures DigitCount(d + rest) == |d|
  {
    if d == "" {
      assert d + rest == rest;
    } else {
      assert (d + rest)[1..] == d[1..] + rest;
      CountOf(d[1..], rest);
    }
  }

  lemma HeaderRest(first: string, last: string, tail: string)
    ensures PREFIX <= Header(first, last, tail)
    ensures Header(first, last, tail)[|PREFIX|..] == first + ("-" + (last + tail))
  {
    assert Header(first, last, tail) == PREFIX + (first + ("-" + (last + tail)));
  }

  lemma PartsOf(first: string, after: string)
    ensures var rest := first + ("-" + after);
      rest[..|first|] == first && |first| < |rest| && rest[|first|] == '-' && rest[|first| + 1..] == after
  {
  }

  lemma MatchOf(first: string, last: string, tail: string)
    requires Digits(first) && first != "" && Digits(last) && AtEnd(tail)
    ensures Match(Header(first, last, tail)) == Some(Parts(first, last))
  {
    var after := last + tail;
    CountOf(first, "-" + after);
    CountOf(last, tail);
    hide DigitCount, Digits, IsDigit, AtEnd, Header, PREFIX;
    HeaderRest(first, last, tail);
    PartsOf(first, after);
    assert after[|last|..] == tail && after[..|last|] == last;
  }

  lemma SplitAt(s: string, k: nat)
    requires k < |s|
    ensures s == s[..k] + ([s[k]] + s[k + 1..])
  {
  }

  lemma Assemble(s: string, first: string, last: string, tail: string)
    requires PREFIX <= s && s[|PREFIX|..] == first + ("-" + (last + tail))
    ensures s == Header(first, last, tail)
  {
    assert s == PREFIX + s[|PREFIX|..];
    hide PREFIX;
  }

  lemma JoinParts(rest: string, k: nat, m: nat)
    requires k + 1 + m <= |rest| && rest[k] == '-'
    ensures rest == rest[..k] + ("-" + (rest[k + 1..][..m] + rest[k + 1..][m..]))
  {
    SplitAt(rest, k);
    assert rest[k + 1..] == rest[k + 1..][..m] + rest[k + 1..][m..];
  }

  lemma MatchIsHeader(s: string) returns (tail: string)
    requires Match(s).Some?
    ensures AtEnd(tail) && s == Header(Match(s).value.first, Match(s).value.last, tail)
  {
    hide DigitCount, Digits, IsDigit, Header, Value;
    var rest := s[|PREFIX|..];
    var k := DigitCount(rest);
    var after := rest[k + 1..];
    var m := DigitCount(after);
    tail := after[m..];
    assert PREFIX <= s && AtEnd(tail) && rest[k] == '-' && Match(s).value == Parts(rest[..k], after[..m]);
    hide Match, AtEnd, PREFIX;
    JoinParts(rest, k, m);
    Assemble(s, rest[..k], after[..m], tail);
  }

  ghost predicate WellFormedHeader(s: string, first: string, last: string) {
    Digits(first) && first != "" && Digits(last) && exists tail :: AtEnd(tail) && s == Header(first, last, tail)
  }

  /** The bounds `b` are those of the numbers `first` and `last`, in order and inside the file. */
  predicate InBounds(b: Bounds, first: string, last: string, fileSize: nat)
    requires Digits(first) && Digits(last)
  {
    && b.start == Value(first) && b.start < fileSize
    && if last == "" then b.end == None else b.end == Some(Value(last)) && b.start < Value(last) < fileSize
  }

  /** A header is accepted exactly if it is `bytes=` first `-` last, possibly with one newline after
      it, where first is below the file size and last is missing or between first and the file size,
      both excluded; and the numbers are then those of the header. */
  lemma AcceptedIff(s: string, fileSize: nat, b: Bounds)
    ensures ParseRangeHeader(s, fileSize) == Some(b) <==>
      exists first, last :: WellFormedHeader(s, first, last) && InBounds(b, first, last, fileSize)
  {
    if first, last :| WellFormedHeader(s, first, last) && InBounds(b, first, last, fileSize) {
      var tail :| AtEnd(tail) && s == Header(first, last, tail);
      MatchOf(first, last, tail);
    }
    if ParseRangeHeader(s, fileSize) == Some(b) {
      var tail := MatchIsHeader(s);
      assert WellFormedHeader(s, Match(s).value.first, Match(s).value.last);
    }
  }

  /** Printing a range and parsing it gives the same numbers. */
  lemma PrintedRangeParses(start: nat, end: nat, fileSize: nat)
    requires start < end < fileSize
    ensures ParseRangeHeader(PREFIX + Decimal(start) + "-" + Decimal(end), fileSize) == Some(Bounds(start, Some(end)))
    ensures ParseRangeHeader(PREFIX + Decimal(start) + "-", fileSize) == Some(Bounds(start, None))
  {
    DecimalValue(start);
    DecimalValue(end);
    MatchOf(Decimal(start), Decimal(end), "");
    MatchOf(Decimal(start), "", "");
    assert PREFIX + Decimal(start) + "-" + Decimal(end) == Header(Decimal(start), Decimal(end), "");
    assert PREFIX + Decimal(start) + "-" == Header(Decimal(start), "", "");
  }

  /** Every range that is returned is inside the file. */
  lemma RangeIsInside(header: string, totalSize: nat, minimum: int)
    requires GetRange(header, totalSize, minimum).Range?
    ensures var r := GetRange(header, totalSize, minimum).r;
      && 0 <= r.start <= r.end < totalSize && r.length == r.end - r.start + 1 >= minimum
      && r.totalSize == totalSize && r.header == header
      && (r.end == totalSize - 1 || r.start < r.end)
  {
  }

  /** There is no range exactly if there is no header; an accepted one is too small exactly if it has
      fewer bytes than the minimum; and every header that is not accepted is invalid. */
  lemma OutcomeIff(header: string, totalSize: nat, minimum: int)
    ensures var r, b := GetRange(header, totalSize, minimum), ParseRangeHeader(header, totalSize);
      && (r.NoRange? <==> header == "")
      && (r.Invalid? <==> header != "" && b.None?)
      && (b.Some? && header != "" ==>
            var last := if b.value.end.Some? then b.value.end.value else totalSize - 1;
            && (r.TooSmall? <==> last - b.value.start + 1 < minimum)
            && (r.TooSmall? ==> r.length == last - b.value.start + 1)
            && (r.Range? ==> r.r.start == b.value.start && r.r.end == last))
  {
    hide ParseRangeHeader;
  }

  // ---- against the standard ----

  /** Section 14.1.2 of RFC 9110 on one range of bytes; the result is the first position and the one
      after the last.  A last position before the first is invalid, a first position past the end is
      unsatisfiable, and a last position past the end stands for the end.  Without a first position the
      last number counts bytes from the end, of which the file may have fewer; none is unsatisfiable. */
  function StandardRange(first: string, last: string, size: nat): (r: Option<(nat, nat)>)
    requires Digits(first) && Digits(last)
    ensures r.Some? ==> r.value.0 <= r.value.1 <= size
  {
    if first == "" then
      if last == "" || Value(last) == 0 then None
      else Some((if Value(last) < size then size - Value(last) else 0, size))
    else if Value(first) >= size then None
    else if last == "" then Some((Value(first), size))
    else if Value(last) < Value(first) then None
    else Some((Value(first), if Value(last) < size then Value(last) + 1 else size))
  }

  lemma SuffixDoesNotMatch(last: string)
    requires Digits(last)
    ensures Match(Header("", last, "")).None?
  {
    assert Header("", last, "") == PREFIX + ("-" + last);
    assert (PREFIX + ("-" + last))[|PREFIX|..] == "-" + last;
  }

  /** A header with one range that the code accepts it reads as the standard does.  It rejects one that
      the standard accepts exactly if this counts bytes from the end, or its last position equals the
      first or is past the end. */
  lemma {:induction false} StricterThanStandard(first: string, last: string, size: nat)
    requires Digits(first) && Digits(last)
    ensures var b := ParseRangeHeader(Header(first, last, ""), size);
      var standard := StandardRange(first, last, size);
      && (b.Some? ==> standard == Some((b.value.start, if b.value.end.Some? then b.value.end.value + 1 else size)))
      && (b.None? && standard.Some? <==>
            if first == "" then last != "" && Value(last) > 0
            else Value(first) < size && last != "" && (Value(last) == Value(first) || Value(last) >= size))
  {
    if first == "" {
      SuffixDoesNotMatch(last);
    } else {
      MatchOf(first, last, "");
    }
  }

  /** `$` also matches before a final newline. */
  lemma TrailingNewlineIsAccepted()
    ensures ParseRangeHeader("bytes=2-5\n", 10) == Some(Bounds(2, Some(5)))
  {
    MatchOf("2", "5", "\n");
    hide Match;
    assert Value("2") == 2 && Value("5") == 5 by {
      assert "2"[..0] == "" && "5"[..0] == "";
    }
    hide Value;
    assert Header("2", "5", "\n") == "bytes=2-5\n";
  }
}
