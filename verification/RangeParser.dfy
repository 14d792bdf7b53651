/** parse_range_header: the Range header of RFC 7233, single byte ranges only. */
module RangeParser {
  import opened Arithmetic
  import opened Results
  import opened Decimal
  import opened TorrentLayout

  const PREFIX := "bytes="

  function TrimLeft(s: string): string {
    if s != "" && s[0] == ' ' then TrimLeft(s[1..]) else s
  }

  function TrimRight(s: string): string {
    if s != "" && s[|s| - 1] == ' ' then TrimRight(s[..|s| - 1]) else s
  }

  /** std::string::find. */
  function Find(s: string, c: char): (r: Option<nat>)
    ensures r == None <==> c !in s
    ensures r.Some? ==> r.value < |s| && s[r.value] == c && c !in s[..r.value]
  {
    if s == "" then None
    else if s[0] == c then Some(0)
    else
      match Find(s[1..], c)
      case None => None
      case Some(i) =>
        assert s[..i + 1] == [s[0]] + s[1..][..i];
        Some(i + 1)
  }

  /** The three range forms, on the trimmed text before and after the dash. */
  function Interpret(left: string, right: string, size: int): (r: Option<ByteRange>)
    requires 0 < size
    ensures r.Some? ==> 0 <= r.value.start <= r.value.end < size
  {
    if left == "" then
      match Stoll(right)
      case None => None
      case Some(suffix) =>
        if suffix <= 0 then None
        else if suffix >= size then Some(ByteRange(0, size - 1))
        else Some(ByteRange(size - suffix, size - 1))
    else
      match Stoll(left)
      case None => None
      case Some(start) =>
        if start < 0 || start >= size then None
        else if right == "" then Some(ByteRange(start, size - 1))
        else
          match Stoll(right)
          case None => None
          case Some(end) =>
            if end < start then None
            else Some(ByteRange(start, if end >= size then size - 1 else end))
  }

  function Parse(header: string, size: int): Option<ByteRange> {
    if size <= 0 || !(PREFIX <= header) || ',' in header[|PREFIX|..] then None
    else
      var spec := TrimRight(TrimLeft(header[|PREFIX|..]));
      match Find(spec, '-')
      case None => None
      case Some(dash) => Interpret(TrimRight(spec[..dash]), TrimLeft(spec[dash + 1..]), size)
  }

  function Spaces(n: nat): string {
    seq(n, _ => ' ')
  }

  /** Exactly the leading spaces go. */
  lemma {:induction false} TrimLeftMeaning(s: string)
    ensures |TrimLeft(s)| <= |s| && s == Spaces(|s| - |TrimLeft(s)|) + TrimLeft(s)
    ensures TrimLeft(s) != "" ==> TrimLeft(s)[0] != ' '
  {
    if s != "" && s[0] == ' ' {
      TrimLeftMeaning(s[1..]);
      var n := |s| - |TrimLeft(s)|;
      assert Spaces(n) == [' '] + Spaces(n - 1);
      assert s == [' '] + s[1..];
    } else {
      assert s == Spaces(0) + s;
    }
  }

  /** Exactly the trailing spaces go. */
  lemma {:induction false} TrimRightMeaning(s: string)
    ensures |TrimRight(s)| <= |s| && s == TrimRight(s) + Spaces(|s| - |TrimRight(s)|)
    ensures TrimRight(s) != "" ==> TrimRight(s)[|TrimRight(s)| - 1] != ' '
  {
    if s != "" && s[|s| - 1] == ' ' {
      TrimRightMeaning(s[..|s| - 1]);
      var n := |s| - |TrimRight(s)|;
      assert Spaces(n) == Spaces(n - 1) + [' '];
      assert s == s[..|s| - 1] + [' '];
    } else {
      assert s == s + Spaces(0);
    }
  }

  method TrimFront(s: string) returns (t: string)
    ensures t == TrimLeft(s)
    ensures |t| <= |s| && s == Spaces(|s| - |t|) + t && (t != "" ==> t[0] != ' ')
  {
    t := s;
    while t != "" && t[0] == ' '
      invariant TrimLeft(t) == TrimLeft(s)
      decreases |t|
    {
      t := t[1..];
    }
    TrimLeftMeaning(s);
  }

  method TrimBack(s: string) returns (t: string)
    ensures t == TrimRight(s)
    ensures |t| <= |s| && s == t + Spaces(|s| - |t|) && (t != "" ==> t[|t| - 1] != ' ')
  {
    t := s;
    while t != "" && t[|t| - 1] == ' '
      invariant TrimRight(t) == TrimRight(s)
      decreases |t|
    {
      t := t[..|t| - 1];
    }
    TrimRightMeaning(s);
  }

  /** The suffix, open-ended and closed forms, with the end clamped to the file. */
  method InterpretParts(left: string, right: string, fileSize: int) returns (r: Option<ByteRange>)
    requires 0 < fileSize
    ensures r == Interpret(left, right, fileSize)
  {
    if left == "" {
      if right == "" {
        return None;
      }
      var suffix := Stoll(right);
      if suffix.None? || suffix.value <= 0 {
        return None;
      }
      if suffix.value >= fileSize {
        return Some(ByteRange(0, fileSize - 1));
      }
      return Some(ByteRange(fileSize - suffix.value, fileSize - 1));
    }

    var start := Stoll(left);
    if start.None? || start.value < 0 {
      return None;
    }
    if right == "" {
      if start.value >= fileSize {
        return None;
      }
      return Some(ByteRange(start.value, fileSize - 1));
    }

    var last := Stoll(right);
    if last.None? {
      return None;
    }
    var end := last.value;
    if end < start.value {
      return None;
    }
    if start.value >= fileSize {
      return None;
    }
    if end >= fileSize {
      end := fileSize - 1;
    }
    return Some(ByteRange(start.value, end));
  }

  lemma {:induction false} TrimKeepsNoDash(s: string)
    requires '-' !in s
    ensures '-' !in TrimRight(TrimLeft(s))
  {
    TrimLeftMeaning(s);
    var t := TrimLeft(s);
    assert '-' !in t by {
      assert forall k :: 0 <= k < |t| ==> t[k] == s[|s| - |t| + k];
    }
    TrimRightMeaning(t);
    assert forall k :: 0 <= k < |TrimRight(t)| ==> TrimRight(t)[k] == t[k];
  }

  /** Only a header in the unit of bytes, with one range that has a dash, is ever accepted, and for no empty file. */
  lemma AcceptedHasUnit(header: string, size: int)
    requires Parse(header, size).Some?
    ensures |header| >= 6 && header[..6] == "bytes=" && ',' !in header[6..] && '-' in header[6..] && size > 0
  {
    if '-' !in header[6..] {
      TrimKeepsNoDash(header[6..]);
    }
  }

  method ParseRangeHeader(header: string, fileSize: int) returns (r: Option<ByteRange>)
    ensures r == Parse(header, fileSize)
    ensures r.Some? ==> 0 <= r.value.start <= r.value.end < fileSize
  {
    if fileSize <= 0 {
      return None;
    }
    var prefix := PREFIX;
    if |header| < |prefix| || header[..|prefix|] != prefix {
      return None;
    }
    var spec := header[|prefix|..];
    if Find(spec, ',').Some? {
      return None;
    }
    spec := TrimFront(spec);
    spec := TrimBack(spec);
    if spec == "" {
      return None;
    }
    var dash := Find(spec, '-');
    if dash.None? {
      return None;
    }
    var left, right := spec[..dash.value], spec[dash.value + 1..];
    left := TrimBack(left);
    right := TrimFront(right);

    r := InterpretParts(left, right, fileSize);
  }

  // ----- Trimming and the dash

  lemma {:induction false} TrimLeftUpTo(l: string, y: string)
    ensures TrimLeft(l + "-" + y) == TrimLeft(l) + "-" + y
  {
    if l != "" && l[0] == ' ' {
      TrimLeftUpTo(l[1..], y);
      assert (l + "-" + y)[1..] == l[1..] + "-" + y;
    } else {
      assert (l + "-" + y)[0] != ' ';
    }
  }

  lemma {:induction false} TrimRightDownTo(x: string, r: string)
    ensures TrimRight(x + "-" + r) == x + "-" + TrimRight(r)
  {
    var s := x + "-" + r;
    if r != "" && r[|r| - 1] == ' ' {
      TrimRightDownTo(x, r[..|r| - 1]);
      assert s[..|s| - 1] == x + "-" + r[..|r| - 1];
    }
  }

  lemma {:induction false} TrimLeftKeeps(s: string, c: char)
    requires c != ' '
    ensures c in TrimLeft(s) <==> c in s
  {
    if s != "" && s[0] == ' ' {
      TrimLeftKeeps(s[1..], c);
      assert s == [s[0]] + s[1..];
    }
  }

  lemma {:induction false} FindDash(x: string, y: string)
    requires '-' !in x
    ensures Find(x + "-" + y, '-') == Some(|x|)
  {
    if x != "" {
      assert (x + "-" + y)[1..] == x[1..] + "-" + y;
      assert x == [x[0]] + x[1..];
      FindDash(x[1..], y);
    }
  }

  lemma AfterPrefix(l: string, r: string)
    ensures PREFIX <= PREFIX + l + "-" + r && (PREFIX + l + "-" + r)[|PREFIX|..] == l + "-" + r
  {
    assert PREFIX + l + "-" + r == PREFIX + (l + "-" + r);
  }

  lemma CommaOnASide(l: string, r: string)
    ensures ',' in l + "-" + r <==> ',' in l || ',' in r
  {
  }

  lemma SidesOfDash(x: string, y: string)
    requires '-' !in x
    ensures var spec := x + "-" + y;
      Find(spec, '-') == Some(|x|) && spec[..|x|] == x && spec[|x| + 1..] == y
  {
    FindDash(x, y);
  }

  lemma TrimmedSpec(l: string, r: string)
    requires '-' !in l
    ensures TrimRight(TrimLeft(l + "-" + r)) == TrimLeft(l) + "-" + TrimRight(r) && '-' !in TrimLeft(l)
  {
    TrimLeftUpTo(l, r);
    TrimRightDownTo(TrimLeft(l), r);
    TrimLeftKeeps(l, '-');
  }

  /** Whatever surrounds the first dash, parsing is interpreting the two trimmed sides. */
  lemma ParseAtDash(l: string, r: string, size: int)
    requires '-' !in l && 0 < size
    ensures Parse(PREFIX + l + "-" + r, size)
         == if ',' in l || ',' in r then None
            else Interpret(TrimRight(TrimLeft(l)), TrimLeft(TrimRight(r)), size)
  {
    AfterPrefix(l, r);
    CommaOnASide(l, r);
    TrimmedSpec(l, r);
    SidesOfDash(TrimLeft(l), TrimRight(r));
  }

  /** The ranges of a file that two texts around a dash may stand for: the last n bytes, those from a first position on,
      or those between two positions; a file cuts them short at its end. */
  ghost predicate StandsFor(left: string, right: string, size: int, range: ByteRange) {
    && 0 < size
    && if left == "" then
         && Stoll(right).Some? && Stoll(right).value >= 1
         && range == ByteRange(Max(0, size - Stoll(right).value), size - 1)
       else
         && Stoll(left) == Some(range.start) && 0 <= range.start <= size - 1
         && (right == "" ==> range.end == size - 1)
         && (right != "" ==>
               && Stoll(right).Some? && range.start <= Stoll(right).value
               && range.end == Min(Stoll(right).value, size - 1))
  }

  lemma InterpretIff(left: string, right: string, size: int, range: ByteRange)
    requires 0 < size
    ensures Interpret(left, right, size) == Some(range) <==> StandsFor(left, right, size, range)
  {
  }

  /** For every text, in the grammar or not: a range is accepted exactly when the trimmed texts around the first dash
      stand for it and there is no comma. */
  lemma AcceptedIff(l: string, r: string, size: int, range: ByteRange)
    requires '-' !in l
    ensures Parse(PREFIX + l + "-" + r, size) == Some(range)
       <==> ',' !in l && ',' !in r && StandsFor(TrimRight(TrimLeft(l)), TrimLeft(TrimRight(r)), size, range)
  {
    if 0 < size {
      ParseAtDash(l, r, size);
      InterpretIff(TrimRight(TrimLeft(l)), TrimLeft(TrimRight(r)), size, range);
    }
  }

  // ----- Padding

  lemma {:induction false} TrimLeftPadded(n: nat, s: string)
    ensures TrimLeft(Spaces(n) + s) == TrimLeft(s)
  {
    if n == 0 {
      assert Spaces(0) + s == s;
    } else {
      assert (Spaces(n) + s)[1..] == Spaces(n - 1) + s;
      TrimLeftPadded(n - 1, s);
    }
  }

  lemma {:induction false} TrimRightPadded(s: string, n: nat)
    ensures TrimRight(s + Spaces(n)) == TrimRight(s)
  {
    if n == 0 {
      assert s + Spaces(0) == s;
    } else {
      var t := s + Spaces(n);
      assert t[..|t| - 1] == s + Spaces(n - 1);
      TrimRightPadded(s, n - 1);
    }
  }

  /** Padding on the far side disappears as well once both sides are trimmed. */
  lemma {:induction false} TrimBothPaddedRight(s: string, n: nat)
    ensures TrimRight(TrimLeft(s + Spaces(n))) == TrimRight(TrimLeft(s))
  {
    if s == "" {
      TrimLeftPadded(n, "");
      assert s + Spaces(n) == Spaces(n) + "";
    } else if s[0] == ' ' {
      assert (s + Spaces(n))[1..] == s[1..] + Spaces(n);
      TrimBothPaddedRight(s[1..], n);
    } else {
      TrimRightPadded(s, n);
    }
  }

  lemma {:induction false} TrimBothPaddedLeft(n: nat, s: string)
    ensures TrimLeft(TrimRight(Spaces(n) + s)) == TrimLeft(TrimRight(s))
  {
    var t := Spaces(n) + s;
    if s == "" {
      TrimRightPadded("", n);
      assert t == "" + Spaces(n);
    } else if s[|s| - 1] == ' ' {
      assert t[..|t| - 1] == Spaces(n) + s[..|s| - 1];
      TrimBothPaddedLeft(n, s[..|s| - 1]);
    } else {
      TrimLeftPadded(n, s);
    }
  }

  lemma SpecOf(spec: string)
    ensures PREFIX <= PREFIX + spec && (PREFIX + spec)[|PREFIX|..] == spec
  {
  }

  lemma CommaInPadded(before: nat, spec: string, after: nat)
    ensures ',' in Spaces(before) + (spec + Spaces(after)) <==> ',' in spec
  {
    assert ',' in Spaces(before) + (spec + Spaces(after)) <==> ',' in Spaces(before) || ',' in spec + Spaces(after);
    assert ',' in spec + Spaces(after) <==> ',' in spec || ',' in Spaces(after);
  }

  lemma PaddedSpecTrims(before: nat, spec: string, after: nat)
    ensures TrimRight(TrimLeft(Spaces(before) + (spec + Spaces(after)))) == TrimRight(TrimLeft(spec))
  {
    TrimLeftPadded(before, spec + Spaces(after));
    TrimBothPaddedRight(spec, after);
  }

  lemma SameTrimmedParsesSame(a: string, b: string, size: int)
    requires TrimRight(TrimLeft(a)) == TrimRight(TrimLeft(b)) && (',' in a <==> ',' in b)
    ensures Parse(PREFIX + a, size) == Parse(PREFIX + b, size)
  {
    SpecOf(a);
    SpecOf(b);
  }

  lemma Regroup(a: string, b: string, c: string, d: string)
    ensures a + b + c + d == a + (b + (c + d))
  {
  }

  /** Spaces around the whole spec change nothing, whatever the spec. */
  lemma PaddingAroundSpec(before: nat, spec: string, after: nat, size: int)
    ensures Parse(PREFIX + Spaces(before) + spec + Spaces(after), size) == Parse(PREFIX + spec, size)
  {
    Regroup(PREFIX, Spaces(before), spec, Spaces(after));
    CommaInPadded(before, spec, after);
    PaddedSpecTrims(before, spec, after);
    SameTrimmedParsesSame(Spaces(before) + (spec + Spaces(after)), spec, size);
  }

  /** Nor do spaces around the first dash, whatever stands on its two sides. */
  lemma PaddingAroundDash(left: string, before: nat, after: nat, right: string, size: int)
    requires '-' !in left
    ensures Parse(PREFIX + (left + Spaces(before)) + "-" + (Spaces(after) + right), size)
         == Parse(PREFIX + left + "-" + right, size)
  {
    if 0 < size {
      ParseAtDash(left, right, size);
      ParseAtDash(left + Spaces(before), Spaces(after) + right, size);
      TrimBothPaddedRight(left, before);
      TrimBothPaddedLeft(after, right);
    }
  }
}
