/** The range parser against RFC 7233: the grammar of section 2.1, the bytes a range denotes, and the satisfiability
    condition of sections 2.1 and 4.4. */
module Rfc7233 {
  import opened Arithmetic
  import opened Results
  import opened Decimal
  import opened TorrentLayout
  import opened RangeParser

  /** One byte-range-spec or suffix-byte-range-spec; every field is 1*DIGIT. */
  datatype RangeSpec =
    | Closed(first: string, last: string)
    | OpenEnded(first: string)
    | Suffix(length: string)

  predicate Number(s: string) { s != "" && AllDigits(s) }

  predicate InGrammar(spec: RangeSpec) {
    match spec
    case Closed(first, last) => Number(first) && Number(last)
    case OpenEnded(first) => Number(first)
    case Suffix(length) => Number(length)
  }

  function LeftText(spec: RangeSpec): string {
    if spec.Suffix? then "" else spec.first
  }

  function RightText(spec: RangeSpec): string {
    match spec
    case Closed(_, last) => last
    case OpenEnded(_) => ""
    case Suffix(length) => length
  }

  function Render(spec: RangeSpec): string {
    PREFIX + LeftText(spec) + "-" + RightText(spec)
  }

  /** Section 2.1: a spec whose last position is below its first is invalid. */
  predicate ValidSpec(spec: RangeSpec)
    requires InGrammar(spec)
  {
    spec.Closed? ==> DecimalValue(spec.first) <= DecimalValue(spec.last)
  }

  /** Sections 2.1 and 4.4: a first position below the length, or a non-zero suffix. */
  predicate Satisfiable(spec: RangeSpec, size: nat)
    requires InGrammar(spec)
  {
    if spec.Suffix? then DecimalValue(spec.length) > 0 else DecimalValue(spec.first) < size
  }

  /** Byte b of a representation of the given size is among those the spec asks for. */
  ghost predicate Denotes(spec: RangeSpec, size: nat, b: int)
    requires InGrammar(spec)
  {
    && 0 <= b < size
    && match spec
       case Closed(first, last) => DecimalValue(first) <= b <= DecimalValue(last)
       case OpenEnded(first) => DecimalValue(first) <= b
       case Suffix(length) => size - DecimalValue(length) <= b
  }

  /** The last number of the spec fits the 64-bit integer the parser reads it into. */
  predicate LastFits(spec: RangeSpec)
    requires InGrammar(spec)
  {
    spec.OpenEnded? || DecimalValue(RightText(spec)) <= INT64_MAX
  }

  lemma TrimDigits(s: string)
    requires AllDigits(s)
    ensures TrimLeft(s) == s && TrimRight(s) == s && '-' !in s && ',' !in s
  {
    assert s != "" ==> IsDigit(s[0]) && IsDigit(s[|s| - 1]);
  }

  lemma ParseOfGrammar(spec: RangeSpec, size: int)
    requires InGrammar(spec) && 0 < size
    ensures Parse(Render(spec), size) == Interpret(LeftText(spec), RightText(spec), size)
  {
    TrimDigits(LeftText(spec));
    TrimDigits(RightText(spec));
    ParseAtDash(LeftText(spec), RightText(spec), size);
  }

  /** What interpreting a spec of the grammar should give: its denoted bytes, or nothing. */
  ghost predicate ReadsAsRfc(spec: RangeSpec, size: nat, r: Option<ByteRange>)
    requires InGrammar(spec)
  {
    && (r.Some? <==> ValidSpec(spec) && Satisfiable(spec, size) && LastFits(spec))
    && (r.Some? ==> forall b :: r.value.start <= b <= r.value.end <==> Denotes(spec, size, b))
  }

  lemma ClosedReadsAsRfc(first: string, last: string, size: nat)
    requires Number(first) && Number(last) && 0 < size <= INT64_MAX
    ensures ReadsAsRfc(Closed(first, last), size, Interpret(first, last, size))
  {
    StollOfDigits(first);
    StollOfDigits(last);
  }

  lemma OpenEndedReadsAsRfc(first: string, size: nat)
    requires Number(first) && 0 < size <= INT64_MAX
    ensures ReadsAsRfc(OpenEnded(first), size, Interpret(first, "", size))
  {
    StollOfDigits(first);
  }

  lemma SuffixReadsAsRfc(length: string, size: nat)
    requires Number(length) && 0 < size <= INT64_MAX
    ensures ReadsAsRfc(Suffix(length), size, Interpret("", length, size))
  {
    StollOfDigits(length);
  }

  /** Every single-range header of the grammar is accepted exactly when it is valid, satisfiable and its last number
      fits 64 bits; what it is parsed to is then exactly the bytes it denotes. */
  lemma GrammarParsesAsRfc(spec: RangeSpec, size: nat)
    requires InGrammar(spec) && 0 < size <= INT64_MAX
    ensures ReadsAsRfc(spec, size, Parse(Render(spec), size))
  {
    ParseOfGrammar(spec, size);
    match spec {
      case Closed(first, last) => ClosedReadsAsRfc(first, last, size);
      case OpenEnded(first) => OpenEndedReadsAsRfc(first, size);
      case Suffix(length) => SuffixReadsAsRfc(length, size);
    }
  }

  /** For a valid spec the condition of section 4.4 is that it denotes some byte. */
  lemma SatisfiableIffSomeByte(spec: RangeSpec, size: nat)
    requires InGrammar(spec) && ValidSpec(spec) && 0 < size
    ensures Satisfiable(spec, size) <==> exists b :: Denotes(spec, size, b)
  {
    if Satisfiable(spec, size) {
      assert Denotes(spec, size, if spec.Suffix? then size - 1 else DecimalValue(spec.first));
    }
  }

  // ----- Printing back

  function ClosedRange(r: ByteRange): RangeSpec
    requires 0 <= r.start <= r.end
  {
    Closed(Print(r.start), Print(r.end))
  }

  /** Printing a range of the file and parsing it gives the range back. */
  lemma PrintedRangeParsesBack(r: ByteRange, size: int)
    requires 0 <= r.start <= r.end < size <= INT64_MAX
    ensures Parse(Render(ClosedRange(r)), size) == Some(r)
  {
    ParseOfGrammar(ClosedRange(r), size);
    StollOfDigits(Print(r.start));
    StollOfDigits(Print(r.end));
  }

  /** So parsing, printing and parsing again is parsing, for every header there is. */
  lemma ParsePrintParse(header: string, size: int)
    requires size <= INT64_MAX && Parse(header, size).Some?
    ensures Parse(Render(ClosedRange(Parse(header, size).value)), size) == Parse(header, size)
  {
    PrintedRangeParsesBack(Parse(header, size).value, size);
  }

  /** The suffix form is the closed form of the last bytes, or of the whole file. */
  lemma SuffixNormalises(length: string, size: nat)
    requires Number(length) && 0 < DecimalValue(length) <= INT64_MAX && 0 < size <= INT64_MAX
    ensures var r := ByteRange(Max(0, size - DecimalValue(length)), size - 1);
      Parse(Render(Suffix(length)), size) == Parse(Render(ClosedRange(r)), size)
  {
    StollOfDigits(length);
    ParseOfGrammar(Suffix(length), size);
    PrintedRangeParsesBack(ByteRange(Max(0, size - DecimalValue(length)), size - 1), size);
  }

  /** The open form is the closed form up to the last byte. */
  lemma OpenEndedNormalises(first: string, size: nat)
    requires Number(first) && DecimalValue(first) < size <= INT64_MAX
    ensures var r := ByteRange(DecimalValue(first), size - 1);
      Parse(Render(OpenEnded(first)), size) == Parse(Render(ClosedRange(r)), size)
  {
    StollOfDigits(first);
    ParseOfGrammar(OpenEnded(first), size);
    PrintedRangeParsesBack(ByteRange(DecimalValue(first), size - 1), size);
  }

  /** A closed form running past the end is the one that stops at the last byte. */
  lemma OverlongNormalises(first: string, last: string, size: nat)
    requires Number(first) && Number(last) && DecimalValue(first) < size <= DecimalValue(last) <= INT64_MAX
    ensures var r := ByteRange(DecimalValue(first), size - 1);
      Parse(Render(Closed(first, last)), size) == Parse(Render(ClosedRange(r)), size)
  {
    StollOfDigits(first);
    StollOfDigits(last);
    ParseOfGrammar(Closed(first, last), size);
    PrintedRangeParsesBack(ByteRange(DecimalValue(first), size - 1), size);
  }

  /** A last position too large for 64 bits is refused although the RFC calls the range satisfiable. */
  lemma OversizedLastIsRefused(size: nat)
    requires 0 < size <= INT64_MAX
    ensures var spec := Closed("0", Print(INT64_MAX + 1));
      InGrammar(spec) && ValidSpec(spec) && Satisfiable(spec, size) && Parse(Render(spec), size) == None
  {
    var spec := Closed("0", Print(INT64_MAX + 1));
    assert DecimalValue("0") == 0 by {
      assert "0"[..0] == "" && DecimalValue("") == 0;
    }
    GrammarParsesAsRfc(spec, size);
  }

  lemma TrimDashed(length: string)
    requires Number(length)
    ensures TrimRight("-" + length) == "-" + length && TrimLeft("-" + length) == "-" + length && ',' !in "-" + length
  {
    var right := "-" + length;
    assert right[0] == '-' && right[|right| - 1] == length[|length| - 1];
    assert IsDigit(length[|length| - 1]);
    assert forall i :: 0 < i < |right| ==> right[i] == length[i - 1];
  }

  lemma StollOfNegative(length: string)
    requires Number(length)
    ensures Stoll("-" + length).Some? ==> Stoll("-" + length).value <= 0
  {
    StollMeaning("", "-", length, "");
    assert length + "" == length;
    assert "" + ("-" + length) == "-" + length;
  }

  /** A second dash makes a negative suffix, which is refused whatever the number. */
  lemma NegativeSuffixIsRefused(length: string, size: nat)
    requires Number(length) && 0 < size
    ensures Parse(PREFIX + "" + "-" + ("-" + length), size) == None
  {
    TrimDashed(length);
    ParseAtDash("", "-" + length, size);
    StollOfNegative(length);
  }
}
