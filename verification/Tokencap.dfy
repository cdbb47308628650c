/** The tokens a preloaded library prints while a program compares strings, and the dictionary
    loader of the fuzzer that reads them back. */
module Tokencap {
  import opened Words

  type Byte = x: int | 0 <= x < 256

  const QUOTE: Byte := 34
  const BACKSLASH: Byte := 92
  const NEWLINE: Byte := 10
  const MIN_AUTO_EXTRA := 3
  const MAX_AUTO_EXTRA := 32
  const MAX_DICT_FILE := 128
  const MAX_LINE := 8192

  /** The bytes before the first NUL. */
  function CString(s: seq<Byte>): (r: seq<Byte>)
    ensures |r| <= |s| && r == s[..|r|] && 0 !in r
    ensures |r| < |s| ==> s[|r|] == 0
  {
    if |s| == 0 || s[0] == 0 then [] else [s[0]] + CString(s[1..])
  }

  // ----- the printer -----

  /** Not printable, or special between quotes. */
  predicate Escaped(b: Byte) {
    b <= 31 || 127 <= b || b == QUOTE || b == BACKSLASH
  }

  function HexDigit(n: int): Byte
    requires 0 <= n < 16
  {
    if n < 10 then 48 + n else 87 + n
  }

  function Escape(b: Byte): seq<Byte> {
    if Escaped(b) then [BACKSLASH, 120, HexDigit(b / 16), HexDigit(b % 16)] else [b]
  }

  function EscapeAll(t: seq<Byte>): seq<Byte> {
    if |t| == 0 then [] else Escape(t[0]) + EscapeAll(t[1..])
  }

  function Line(t: seq<Byte>): seq<Byte> {
    [QUOTE] + EscapeAll(t) + [QUOTE, NEWLINE]
  }

  /** What is printed of a token: text ends at a NUL. */
  function Printed(ptr: seq<Byte>, isText: bool): seq<Byte> {
    if isText then CString(ptr) else ptr
  }

  predicate Interesting(len: nat) {
    MIN_AUTO_EXTRA <= len <= MAX_AUTO_EXTRA
  }

  method SprintHex(buf: array<Byte>, pos: nat, b: Byte)
    requires pos + 4 < buf.Length
    modifies buf
    ensures buf[..pos + 4] == old(buf[..pos]) + [BACKSLASH, 120, HexDigit(b / 16), HexDigit(b % 16)]
  {
    buf[pos], buf[pos + 1] := BACKSLASH, 120;
    buf[pos + 2], buf[pos + 3], buf[pos + 4] := HexDigit(b / 16), HexDigit(b % 16), 0;
    assert buf[..pos] == old(buf[..pos]);
  }

  /** One byte of the token, as it is or escaped. */
  method PutByte(buf: array<Byte>, pos: nat, b: Byte) returns (next: nat)
    requires pos + 4 < buf.Length
    modifies buf
    ensures pos <= next <= pos + 4 && buf[..next] == old(buf[..pos]) + Escape(b)
  {
    if Escaped(b) {
      SprintHex(buf, pos, b);
      next := pos + 4;
    } else {
      buf[pos] := b;
      next := pos + 1;
      assert buf[..pos] == old(buf[..pos]);
    }
  }

  method Dump(ptr: seq<Byte>, isText: bool) returns (line: Option<seq<Byte>>)
    ensures line == if Interesting(|ptr|) then Some(Line(Printed(ptr, isText))) else None
  {
    if |ptr| < MIN_AUTO_EXTRA || |ptr| > MAX_AUTO_EXTRA {
      return None;
    }
    hide Escape, EscapeAll, Printed, CString, Dumped;
    var buf := new Byte[MAX_AUTO_EXTRA * 4 + 1];
    var pos, i := 0, 0;
    ghost var t := Printed(ptr, isText);
    DumpStart(t);
    while i < |ptr| && !(isText && ptr[i] == 0)
      invariant 0 <= i <= |t| && 0 <= pos <= 4 * i && Dumped(buf[..pos], t, i)
    {
      PrintedNext(ptr, isText, i);
      DumpStep(buf[..pos], t, i);
      pos := PutByte(buf, pos, ptr[i]);
      i := i + 1;
    }
    PrintedEnd(ptr, isText, i);
    buf[pos] := 0;
    DumpedLine(buf[..], pos, t, i);
    line := Some([QUOTE] + CString(buf[..]) + [QUOTE, NEWLINE]);
  }

  /** The buffer holds the first `i` bytes, escaped. */
  ghost predicate Dumped(front: seq<Byte>, t: seq<Byte>, i: nat) {
    i <= |t| && front + EscapeAll(t[i..]) == EscapeAll(t)
  }

  lemma DumpStart(t: seq<Byte>)
    ensures Dumped([], t, 0)
  {
    assert t[0..] == t && [] + EscapeAll(t) == EscapeAll(t);
  }

  lemma DumpStep(front: seq<Byte>, t: seq<Byte>, i: nat)
    requires i < |t| && Dumped(front, t, i)
    ensures Dumped(front + Escape(t[i]), t, i + 1)
  {
    hide Escape, EscapeAll;
    EscapeStep(front, t, i);
  }

  /** The buffer, ended by its NUL, is read as the escaped bytes. */
  lemma DumpedLine(buf: seq<Byte>, pos: nat, t: seq<Byte>, i: nat)
    requires pos < |buf| && buf[pos] == 0 && i == |t| && Dumped(buf[..pos], t, i)
    ensures CString(buf) == EscapeAll(t)
  {
    assert t[i..] == [] && buf[..pos] + [] == buf[..pos];
    EscapedBytes(t);
    CStringStops(buf, pos);
  }

  lemma PrintedNext(ptr: seq<Byte>, isText: bool, i: nat)
    requires i < |ptr| && i <= |Printed(ptr, isText)| && !(isText && ptr[i] == 0)
    ensures i < |Printed(ptr, isText)| && Printed(ptr, isText)[i] == ptr[i]
  {
  }

  lemma PrintedEnd(ptr: seq<Byte>, isText: bool, i: nat)
    requires i <= |Printed(ptr, isText)| && (i == |ptr| || (isText && ptr[i] == 0))
    ensures i == |Printed(ptr, isText)|
  {
    var t := Printed(ptr, isText);
    if isText {
      forall k | 0 <= k < |t|
        ensures ptr[k] != 0
      {
        assert t[k] == ptr[k] && t[k] in t;
      }
    }
  }

  lemma EscapeStep(before: seq<Byte>, t: seq<Byte>, i: nat)
    requires i < |t|
    ensures before + EscapeAll(t[i..]) == (before + Escape(t[i])) + EscapeAll(t[i + 1..])
  {
    hide Escape;
    assert t[i..][1..] == t[i + 1..];
  }

  /** Only printable bytes are written, so no NUL and no newline. */
  lemma {:induction false} EscapedBytes(t: seq<Byte>)
    ensures forall b :: b in EscapeAll(t) ==> 32 <= b < 127
    ensures |EscapeAll(t)| <= 4 * |t| && |EscapeAll(t)| >= |t|
  {
    if |t| > 0 {
      EscapedBytes(t[1..]);
      assert forall b :: b in Escape(t[0]) ==> 32 <= b < 127;
    }
  }

  lemma CStringStops(s: seq<Byte>, n: nat)
    requires n < |s| && s[n] == 0 && 0 !in s[..n]
    ensures CString(s) == s[..n]
  {
    var r := CString(s);
    forall k | 0 <= k < n
      ensures s[k] != 0
    {
      assert s[..n][k] == s[k];
    }
    forall k | 0 <= k < |r|
      ensures s[k] != 0
    {
      assert r[k] == s[k] && r[k] in r;
    }
  }

  // ----- the loader, line by line -----

  predicate Space(b: Byte) {
    9 <= b <= 13 || b == 32
  }

  predicate Digit(b: Byte) {
    48 <= b <= 57
  }

  predicate LabelByte(b: Byte) {
    Digit(b) || 65 <= b <= 90 || 97 <= b <= 122 || b == 95
  }

  predicate SpaceOrEquals(b: Byte) {
    Space(b) || b == 61
  }

  function DropWhile(s: seq<Byte>, f: Byte -> bool): (r: seq<Byte>)
    ensures |r| <= |s| && r == s[|s| - |r|..]
  {
    if |s| > 0 && f(s[0]) then DropWhile(s[1..], f) else s
  }

  function TrimRight(s: seq<Byte>): (r: seq<Byte>)
    ensures |r| <= |s| && r == s[..|r|]
  {
    if |s| > 0 && Space(s[|s| - 1]) then TrimRight(s[..|s| - 1]) else s
  }

  /** The number at the front, as the library's `atoi` reads it. */
  function Number(s: seq<Byte>, acc: int): int {
    if |s| > 0 && Digit(s[0]) then Number(s[1..], 10 * acc + (s[0] - 48)) else acc
  }

  function Atoi(s: seq<Byte>): int {
    var d := DropWhile(s, Space);
    if |d| > 0 && d[0] == 45 then -Number(d[1..], 0)
    else if |d| > 0 && d[0] == 43 then Number(d[1..], 0)
    else Number(d, 0)
  }

  /** `atoi(lptr) > dict_level`, compared as unsigned numbers. */
  predicate TooHigh(s: seq<Byte>, level: nat) {
    Atoi(s) % 0x1_0000_0000 > level
  }

  predicate XDigit(b: Byte) {
    Digit(b) || 65 <= b <= 70 || 97 <= b <= 102
  }

  function HexValue(b: Byte): int
    requires XDigit(b)
    ensures 0 <= HexValue(b) < 16
  {
    if Digit(b) then b - 48 else if b >= 97 then b - 87 else b - 55
  }

  /** The byte written for the front of the text, and how much of it that uses. */
  function Front(s: seq<Byte>): (r: Option<(Byte, nat)>)
    requires |s| > 0
    ensures r.Some? ==> 0 < r.value.1 <= |s|
  {
    if s[0] == BACKSLASH then
      if |s| >= 2 && (s[1] == BACKSLASH || s[1] == QUOTE) then Some((s[1], 2))
      else if |s| >= 4 && s[1] == 120 && XDigit(s[2]) && XDigit(s[3]) then Some((16 * HexValue(s[2]) + HexValue(s[3]), 4))
      else None
    else if s[0] <= 31 || 128 <= s[0] then None
    else Some((s[0], 1))
  }

  /** A hexadecimal digit in either case. */
  predicate Nibble(h: Byte, v: int) {
    0 <= v < 16 && if v < 10 then h == 48 + v else h == 87 + v || h == 55 + v
  }

  /** The ways to write one byte: as it is, behind a backslash, or by its two digits. */
  ghost predicate Spells(piece: seq<Byte>, b: Byte) {
    || (piece == [b] && 32 <= b < 128 && b != BACKSLASH)
    || (piece == [BACKSLASH, b] && (b == BACKSLASH || b == QUOTE))
    || (|piece| == 4 && piece[0] == BACKSLASH && piece[1] == 120 && Nibble(piece[2], b / 16) && Nibble(piece[3], b % 16))
  }

  /** What is read is exactly what is written in one of these ways. */
  lemma FrontIff(s: seq<Byte>, b: Byte, n: nat)
    requires |s| > 0
    ensures Front(s) == Some((b, n)) <==> n <= |s| && Spells(s[..n], b)
  {
    if n <= |s| {
      var piece := s[..n];
      assert n > 0 ==> piece[0] == s[0];
      assert n > 1 ==> piece[1] == s[1];
      if n == 4 {
        assert piece[2] == s[2] && piece[3] == s[3];
        DigitsIff(s[2], s[3], b);
      }
    }
  }

  lemma DigitsIff(h: Byte, l: Byte, b: Byte)
    ensures XDigit(h) && XDigit(l) && 16 * HexValue(h) + HexValue(l) == b <==> Nibble(h, b / 16) && Nibble(l, b % 16)
  {
  }

  function Unescape(s: seq<Byte>): (r: Option<seq<Byte>>)
    ensures r.Some? ==> |r.value| <= |s| && (|s| > 0 ==> |r.value| > 0)
  {
    if |s| == 0 then Some([])
    else
      match Front(s)
      case None => None
      case Some((b, n)) =>
        match Unescape(s[n..])
        case None => None
        case Some(t) => Some([b] + t)
  }

  datatype Outcome = Skipped | Fatal | Token(data: seq<Byte>)

  /** After the opening quote. */
  function ParseKeyword(body: seq<Byte>): (o: Outcome)
    ensures o.Token? ==> 0 < |o.data| <= MAX_DICT_FILE
  {
    if |body| == 0 then Fatal
    else
      match Unescape(body)
      case None => Fatal
      case Some(t) => if |t| > MAX_DICT_FILE then Fatal else Token(t)
  }

  /** After the label and the level. */
  function ParseQuoted(p: seq<Byte>): (o: Outcome)
    ensures o.Token? ==> 0 < |o.data| <= MAX_DICT_FILE
  {
    var r := DropWhile(p, SpaceOrEquals);
    if |r| == 0 || r[0] != QUOTE then Fatal else ParseKeyword(r[1..])
  }

  /** A trimmed line without its closing quote. */
  function ParseLabel(n: seq<Byte>, level: nat): (o: Outcome)
    ensures o.Token? ==> 0 < |o.data| <= MAX_DICT_FILE
  {
    var p := DropWhile(n, LabelByte);
    if |p| > 0 && p[0] == 64 then
      if TooHigh(p[1..], level) then Skipped else ParseQuoted(DropWhile(p[1..], Digit))
    else ParseQuoted(p)
  }

  function Parse(s: seq<Byte>, level: nat): (o: Outcome)
    ensures o.Token? ==> 0 < |o.data| <= MAX_DICT_FILE
  {
    var m := TrimRight(DropWhile(s, Space));
    if |m| == 0 || m[0] == 35 then Skipped
    else if m[|m| - 1] != QUOTE then Fatal
    else ParseLabel(m[..|m| - 1], level)
  }

  // ----- the loader undoes the printer -----

  lemma HexBack(b: Byte)
    ensures XDigit(HexDigit(b / 16)) && XDigit(HexDigit(b % 16))
    ensures 16 * HexValue(HexDigit(b / 16)) + HexValue(HexDigit(b % 16)) == b
  {
  }

  lemma FrontOfEscape(b: Byte, rest: seq<Byte>)
    ensures |Escape(b) + rest| > 0 && Front(Escape(b) + rest) == Some((b, |Escape(b)|))
  {
    HexBack(b);
  }

  lemma {:induction false} UnescapeEscapeAll(t: seq<Byte>)
    ensures Unescape(EscapeAll(t)) == Some(t)
  {
    if |t| > 0 {
      var e, rest := EscapeAll(t), EscapeAll(t[1..]);
      FrontOfEscape(t[0], rest);
      hide Escape, Front;
      assert e == Escape(t[0]) + rest && e[|Escape(t[0])|..] == rest;
      UnescapeEscapeAll(t[1..]);
      assert [t[0]] + t[1..] == t;
    }
  }

  /** A printed line is the keyword it shows, whatever the level: nothing is taken for blanks, a
      comment, a label or a level. */
  lemma ParsePrinted(t: seq<Byte>, level: nat)
    ensures Parse(Line(t), level) == ParseKeyword(EscapeAll(t))
  {
    hide EscapeAll, ParseKeyword, ParseLabel;
    var s, e := Line(t), EscapeAll(t);
    var m := [QUOTE] + e + [QUOTE];
    assert s[0] == QUOTE && DropWhile(s, Space) == s;
    TrimLine(e);
    assert TrimRight(s) == m && m[..|m| - 1] == [QUOTE] + e;
    NoLabel(e, level);
  }

  lemma TrimLine(e: seq<Byte>)
    ensures TrimRight([QUOTE] + e + [QUOTE, NEWLINE]) == [QUOTE] + e + [QUOTE]
  {
    var s, m := [QUOTE] + e + [QUOTE, NEWLINE], [QUOTE] + e + [QUOTE];
    assert s[..|s| - 1] == m;
    assert TrimRight(s) == TrimRight(m);
  }

  lemma NoLabel(e: seq<Byte>, level: nat)
    ensures ParseLabel([QUOTE] + e, level) == ParseKeyword(e)
  {
    hide ParseKeyword, TooHigh;
    var n := [QUOTE] + e;
    assert n[0] == QUOTE && n[1..] == e;
    assert DropWhile(n, LabelByte) == n && DropWhile(n, SpaceOrEquals) == n;
  }

  /** Every non-empty token up to the size limit is read back as it was. */
  lemma RoundTrip(t: seq<Byte>, level: nat)
    ensures Parse(Line(t), level) == if 0 < |t| <= MAX_DICT_FILE then Token(t) else Fatal
  {
    ParsePrinted(t, level);
    UnescapeEscapeAll(t);
    EscapedBytes(t);
  }

  /** Printing again what a line gave, however it was written, gives a line with the same meaning. */
  lemma Canonical(s: seq<Byte>, level: nat)
    ensures Parse(s, level).Token? ==> Parse(Line(Parse(s, level).data), level) == Parse(s, level)
  {
    hide Parse, Line;
    if Parse(s, level).Token? {
      RoundTrip(Parse(s, level).data, level);
    }
  }

  /** A captured token survives exactly when it is not a text that starts with its NUL; that one
      stops the fuzzer. */
  lemma CapturedIff(ptr: seq<Byte>, isText: bool, level: nat)
    requires Interesting(|ptr|)
    ensures Parse(Line(Printed(ptr, isText)), level)
         == if isText && ptr[0] == 0 then Fatal else Token(Printed(ptr, isText))
  {
    RoundTrip(Printed(ptr, isText), level);
  }

  // ----- lines written by hand -----

  function Decimal(n: nat): seq<Byte> {
    if n < 10 then [48 + n] else Decimal(n / 10) + [48 + n % 10]
  }

  lemma {:induction false} NumberConcat(a: seq<Byte>, b: seq<Byte>, acc: int)
    requires forall d <- a :: Digit(d)
    ensures Number(a + b, acc) == Number(b, Number(a, acc))
  {
    if |a| == 0 {
      assert a + b == b;
    } else {
      assert a[0] in a && (a + b)[1..] == a[1..] + b;
      NumberConcat(a[1..], b, 10 * acc + (a[0] - 48));
    }
  }

  lemma {:induction false} DecimalIs(n: nat)
    ensures |Decimal(n)| > 0 && (forall d <- Decimal(n) :: Digit(d)) && Number(Decimal(n), 0) == n
  {
    if n >= 10 {
      DecimalIs(n / 10);
      NumberConcat(Decimal(n / 10), [48 + n % 10], 0);
      assert Number([48 + n % 10], n / 10) == Number([], 10 * (n / 10) + n % 10);
    } else {
      assert Number([48 + n], 0) == Number([], n);
    }
  }

  lemma {:induction false} DropConcat(a: seq<Byte>, b: seq<Byte>, f: Byte -> bool)
    requires (forall x <- a :: f(x)) && (|b| > 0 ==> !f(b[0]))
    ensures DropWhile(a + b, f) == b
  {
    if |a| == 0 {
      assert a + b == b;
    } else {
      assert a[0] in a && (a + b)[1..] == a[1..] + b;
      DropConcat(a[1..], b, f);
    }
  }

  lemma {:induction false} TrimConcat(a: seq<Byte>, b: seq<Byte>)
    requires (forall x <- b :: Space(x)) && |a| > 0 && !Space(a[|a| - 1])
    ensures TrimRight(a + b) == a
  {
    if |b| == 0 {
      assert a + b == a;
    } else {
      assert b[|b| - 1] in b && (a + b)[..|a + b| - 1] == a + b[..|b| - 1];
      TrimConcat(a, b[..|b| - 1]);
    }
  }

  /** What `level` is asked of a line with `@n`. */
  lemma {:induction false} LevelOf(n: nat, rest: seq<Byte>, level: nat)
    requires n < 0x1_0000_0000 && (|rest| > 0 ==> !Digit(rest[0]))
    ensures TooHigh(Decimal(n) + rest, level) <==> n > level
    ensures DropWhile(Decimal(n) + rest, Digit) == rest
  {
    hide Decimal, Number, Atoi, DropWhile, Digit;
    var d := Decimal(n);
    DecimalIs(n);
    DropConcat(d, rest, Digit);
    NumberConcat(d, rest, 0);
    assert d[0] in d && (d + rest)[0] == d[0];
    AtoiDigits(d + rest, d[0]);
    NoMoreDigits(rest, n);
  }

  lemma {:induction false} NoMoreDigits(s: seq<Byte>, acc: int)
    requires |s| > 0 ==> !Digit(s[0])
    ensures Number(s, acc) == acc
  {
  }

  lemma {:induction false} AtoiDigits(s: seq<Byte>, d: Byte)
    requires |s| > 0 && s[0] == d && Digit(d)
    ensures Atoi(s) == Number(s, 0)
  {
    hide Number;
  }

  /** `name@n = "token"`, with the level left out when `n` is, and blanks anywhere but in the name. */
  function Written(before: seq<Byte>, name: seq<Byte>, n: Option<nat>, middle: seq<Byte>, t: seq<Byte>, after: seq<Byte>): seq<Byte> {
    before + (name + Leveled(n, middle + [QUOTE] + EscapeAll(t)) + [QUOTE]) + after
  }

  function Leveled(n: Option<nat>, rest: seq<Byte>): seq<Byte> {
    if n.Some? then [64] + (Decimal(n.value) + rest) else rest
  }

  predicate Blank(b: Byte) {
    b == 32 || 9 <= b <= 13
  }

  predicate NameByte(b: Byte) {
    48 <= b <= 57 || 65 <= b <= 90 || 97 <= b <= 122 || b == 95
  }

  /** Such a line gives its token exactly when the level is not above that of the run, and is passed
      over otherwise; without a level it always does. */
  lemma {:induction false} WrittenLine(before: seq<Byte>, name: seq<Byte>, n: Option<nat>, middle: seq<Byte>, t: seq<Byte>, after: seq<Byte>,
                                       level: nat)
    requires (forall b <- before + after :: Blank(b)) && (forall b <- middle :: Blank(b) || b == 61) && forall b <- name :: NameByte(b)
    requires (|name| > 0 || n.Some?) && (n.Some? ==> n.value < 0x1_0000_0000)
    ensures Parse(Written(before, name, n, middle, t, after), level) ==
            if n.Some? && n.value > level then Skipped
            else if 0 < |t| <= MAX_DICT_FILE then Token(t) else Fatal
  {
    hide EscapeAll, ParseKeyword, Decimal, TooHigh, Leveled, ParseLabel, Parse;
    var e := EscapeAll(t);
    var l := Leveled(n, middle + [QUOTE] + e);
    var m := name + l + [QUOTE];
    Blanks(before, after);
    FirstByte(name, n, middle, e);
    assert Written(before, name, n, middle, t, after) == before + (m + after);
    ParseTrimmed(before, name + l, after, level);
    LabeledPart(name, n, middle, e, level);
    KeywordOf(t);
  }

  /** What is between the blanks, from a first byte that is no blank and no comment sign. */
  lemma {:induction false} ParseTrimmed(before: seq<Byte>, l: seq<Byte>, after: seq<Byte>, level: nat)
    requires (forall b <- before :: Space(b)) && (forall b <- after :: Space(b)) && |l| > 0 && !Space(l[0]) && l[0] != 35
    ensures Parse(before + (l + [QUOTE] + after), level) == ParseLabel(l, level)
  {
    hide DropWhile, TrimRight, ParseLabel;
    var m := l + [QUOTE];
    DropConcat(before, m + after, Space);
    TrimConcat(m, after);
    assert m[..|m| - 1] == l;
  }

  lemma {:induction false} Blanks(before: seq<Byte>, after: seq<Byte>)
    requires forall b <- before + after :: Blank(b)
    ensures (forall b <- before :: Space(b)) && forall b <- after :: Space(b)
  {
    forall b
      ensures b in before || b in after ==> b in before + after
    {
    }
  }

  lemma {:induction false} LabeledPart(name: seq<Byte>, n: Option<nat>, middle: seq<Byte>, e: seq<Byte>, level: nat)
    requires (forall b <- middle :: Blank(b) || b == 61) && forall b <- name :: NameByte(b)
    requires n.Some? ==> n.value < 0x1_0000_0000
    ensures ParseLabel(name + Leveled(n, middle + [QUOTE] + e), level) ==
            if n.Some? && n.value > level then Skipped else ParseKeyword(e)
  {
    hide ParseKeyword, Decimal, TooHigh, DropWhile, ParseQuoted;
    var q := middle + [QUOTE] + e;
    var l := Leveled(n, q);
    FirstByte(name, n, middle, e);
    DropConcat(name, l, LabelByte);
    QuotedPart(middle, e);
    if n.Some? {
      assert l[0] == 64 && l[1..] == Decimal(n.value) + q;
      LevelOf(n.value, q, level);
    }
  }

  lemma {:induction false} FirstByte(name: seq<Byte>, n: Option<nat>, middle: seq<Byte>, e: seq<Byte>)
    requires (forall b <- middle :: Blank(b) || b == 61) && forall b <- name :: NameByte(b)
    ensures var l := Leveled(n, middle + [QUOTE] + e); |l| > 0 && !LabelByte(l[0])
    ensures |name| > 0 || n.Some? ==> var m := name + Leveled(n, middle + [QUOTE] + e); !Space(m[0]) && m[0] != 35
    ensures n.None? ==> Leveled(n, middle + [QUOTE] + e)[0] != 64
    ensures !Digit((middle + [QUOTE] + e)[0])
  {
    var q := middle + [QUOTE] + e;
    assert q[0] == if |middle| > 0 then middle[0] else QUOTE;
    if |middle| > 0 {
      assert middle[0] in middle;
    }
    if |name| > 0 {
      assert name[0] in name;
    }
  }

  lemma {:induction false} QuotedPart(middle: seq<Byte>, e: seq<Byte>)
    requires forall b <- middle :: Blank(b) || b == 61
    ensures ParseQuoted(middle + [QUOTE] + e) == ParseKeyword(e)
  {
    hide ParseKeyword;
    var r := [QUOTE] + e;
    assert middle + [QUOTE] + e == middle + r;
    DropConcat(middle, r, SpaceOrEquals);
    assert r[1..] == e;
  }

  lemma {:induction false} KeywordOf(t: seq<Byte>)
    ensures ParseKeyword(EscapeAll(t)) == if 0 < |t| <= MAX_DICT_FILE then Token(t) else Fatal
  {
    hide Escape, Front;
    UnescapeEscapeAll(t);
    EscapedBytes(t);
  }

  // ----- whole files -----

  /** How much `fgets` takes: through the newline, but at most `max` bytes. */
  function ChunkLen(file: seq<Byte>, max: nat): (n: nat)
    ensures n <= |file| && (|file| > 0 && max > 0 ==> n > 0)
  {
    if |file| == 0 || max == 0 then 0
    else if file[0] == NEWLINE then 1
    else 1 + ChunkLen(file[1..], max - 1)
  }

  /** The tokens of a file, in order; `None` when some line stops the fuzzer. */
  function LoadAll(file: seq<Byte>, level: nat, max: nat): Option<seq<seq<Byte>>>
    requires max > 0
    decreases |file|
  {
    if |file| == 0 then Some([])
    else
      var n := ChunkLen(file, max);
      match Parse(CString(file[..n]), level)
      case Skipped => LoadAll(file[n..], level, max)
      case Fatal => None
      case Token(t) => Prepend(t, LoadAll(file[n..], level, max))
  }

  function Prepend(t: seq<Byte>, ts: Option<seq<seq<Byte>>>): Option<seq<seq<Byte>>> {
    if ts.Some? then Some([t] + ts.value) else None
  }

  datatype Capture = Capture(ptr: seq<Byte>, isText: bool)

  /** The lines printed while these comparisons were made. */
  function DumpAll(cs: seq<Capture>): seq<Byte> {
    if |cs| == 0 then []
    else (if Interesting(|cs[0].ptr|) then Line(Printed(cs[0].ptr, cs[0].isText)) else []) + DumpAll(cs[1..])
  }

  predicate Empty(c: Capture) {
    Interesting(|c.ptr|) && c.isText && c.ptr[0] == 0
  }

  function Kept(cs: seq<Capture>): seq<seq<Byte>> {
    if |cs| == 0 then []
    else (if Interesting(|cs[0].ptr|) then [Printed(cs[0].ptr, cs[0].isText)] else []) + Kept(cs[1..])
  }

  lemma {:induction false} ChunkIsLine(body: seq<Byte>, rest: seq<Byte>, max: nat)
    requires NEWLINE !in body && |body| < max
    ensures ChunkLen(body + [NEWLINE] + rest, max) == |body| + 1
  {
    var f := body + [NEWLINE] + rest;
    if |body| > 0 {
      assert f[0] == body[0] && body[0] in body;
      assert f[1..] == body[1..] + [NEWLINE] + rest;
      ChunkIsLine(body[1..], rest, max - 1);
    }
  }

  lemma CStringWhole(s: seq<Byte>)
    requires 0 !in s
    ensures CString(s) == s
  {
    forall k | 0 <= k < |s|
      ensures s[k] != 0
    {
      assert s[k] in s;
    }
  }

  /** One printed line at the front of a file is one line of the loader. */
  lemma FirstLine(t: seq<Byte>, rest: seq<Byte>, max: nat)
    requires 4 * |t| + 2 < max
    ensures var n := ChunkLen(Line(t) + rest, max);
            n == |Line(t)| && CString((Line(t) + rest)[..n]) == Line(t) && (Line(t) + rest)[n..] == rest
  {
    EscapedBytes(t);
    var body := [QUOTE] + EscapeAll(t) + [QUOTE];
    hide EscapeAll;
    assert Line(t) == body + [NEWLINE];
    assert Line(t) + rest == body + [NEWLINE] + rest;
    ChunkIsLine(body, rest, max);
    assert (Line(t) + rest)[..|Line(t)|] == Line(t);
    CStringWhole(Line(t));
  }

  /** What was captured is loaded, in order and complete, unless an empty text is among it. */
  lemma {:induction false} CapturedFile(cs: seq<Capture>, level: nat, max: nat)
    requires max > 4 * MAX_AUTO_EXTRA + 2
    ensures LoadAll(DumpAll(cs), level, max) == if exists c <- cs :: Empty(c) then None else Some(Kept(cs))
  {
    hide Parse, Printed, Line, ChunkLen, LoadAll, CString;
    if |cs| == 0 {
      LoadNothing(level, max);
    } else {
      CapturedFile(cs[1..], level, max);
      AnyEmpty(cs);
      var c := cs[0];
      if Interesting(|c.ptr|) {
        FirstCapture(c, DumpAll(cs[1..]), level, max);
      } else {
        assert DumpAll(cs) == DumpAll(cs[1..]) && Kept(cs) == Kept(cs[1..]);
      }
    }
  }

  lemma LoadNothing(level: nat, max: nat)
    requires max > 0
    ensures LoadAll([], level, max) == Some([])
  {
  }

  lemma FirstCapture(c: Capture, rest: seq<Byte>, level: nat, max: nat)
    requires max > 4 * MAX_AUTO_EXTRA + 2 && Interesting(|c.ptr|)
    ensures LoadAll(Line(Printed(c.ptr, c.isText)) + rest, level, max)
         == if Empty(c) then None else Prepend(Printed(c.ptr, c.isText), LoadAll(rest, level, max))
  {
    hide Parse, Line, ChunkLen, LoadAll, CString;
    var t := Printed(c.ptr, c.isText);
    FirstLine(t, rest, max);
    CapturedIff(c.ptr, c.isText, level);
    hide Printed;
    LineFull(t);
    LoadFirst(Line(t), rest, level, max);
  }

  lemma LineFull(t: seq<Byte>)
    ensures |Line(t)| > 0 && CString(Line(t)) == Line(t)
  {
    EscapedBytes(t);
    hide EscapeAll, CString;
    CStringWhole(Line(t));
  }

  lemma AnyEmpty(cs: seq<Capture>)
    requires |cs| > 0
    ensures (exists c <- cs :: Empty(c)) <==> Empty(cs[0]) || exists c <- cs[1..] :: Empty(c)
  {
    hide Empty;
    assert cs == [cs[0]] + cs[1..];
  }

  lemma LoadFirst(line: seq<Byte>, rest: seq<Byte>, level: nat, max: nat)
    requires max > 0 && |line| > 0 && ChunkLen(line + rest, max) == |line| && CString(line) == line
    ensures Parse(line, level) == Fatal ==> LoadAll(line + rest, level, max) == None
    ensures Parse(line, level).Token? ==>
              LoadAll(line + rest, level, max) == Prepend(Parse(line, level).data, LoadAll(rest, level, max))
  {
    hide Parse, ChunkLen;
    assert (line + rest)[..|line|] == line && (line + rest)[|line|..] == rest;
  }

  // ----- the loader's loops -----

  /** A line in the buffer, from `p` to the NUL at `end`. */
  ghost predicate Text(buf: array<Byte>, p: nat, end: nat)
    reads buf
  {
    p <= end < buf.Length && buf[end] == 0 && forall k :: p <= k < end ==> buf[k] != 0
  }

  lemma TextDrop(buf: array<Byte>, p: nat, q: nat, end: nat)
    requires Text(buf, p, end) && p <= q <= end
    ensures Text(buf, q, end) && buf[q..end] == buf[p..end][q - p..]
  {
    assert buf[q..end] == buf[p..end][q - p..];
  }

  lemma DropStep(buf: array<Byte>, q: nat, end: nat, f: Byte -> bool)
    requires Text(buf, q, end) && !f(0)
    ensures f(buf[q]) ==> q < end && Text(buf, q + 1, end) && DropWhile(buf[q..end], f) == DropWhile(buf[q + 1..end], f)
    ensures !f(buf[q]) ==> DropWhile(buf[q..end], f) == buf[q..end]
  {
    AtFront(buf, q, end);
    if q < end {
      TextDrop(buf, q, q + 1, end);
    }
    hide Text;
  }

  /** Moves the pointer on while it points at a byte of the class `f`. */
  method SkipWhile(buf: array<Byte>, p: nat, ghost end: nat, f: Byte -> bool) returns (q: nat)
    requires Text(buf, p, end) && !f(0)
    ensures p <= q <= end && Text(buf, q, end)
    ensures buf[q..end] == DropWhile(buf[p..end], f)
  {
    hide Text, DropWhile;
    q := p;
    AtFront(buf, q, end);
    while f(buf[q])
      invariant p <= q <= end < buf.Length && Text(buf, q, end)
      invariant DropWhile(buf[q..end], f) == DropWhile(buf[p..end], f)
      decreases end - q
    {
      DropStep(buf, q, end, f);
      q := q + 1;
    }
    DropStep(buf, q, end, f);
  }

  /** Blanks at the right end are cut off by a NUL. */
  method CutRight(buf: array<Byte>, lptr: nat, end: nat) returns (rptr: nat)
    requires Text(buf, lptr, end)
    modifies buf
    ensures lptr <= rptr <= end && Text(buf, lptr, rptr)
    ensures buf[lptr..rptr] == TrimRight(old(buf[lptr..end]))
  {
    rptr := end;
    while rptr > lptr && Space(buf[rptr - 1])
      invariant lptr <= rptr <= end
      invariant TrimRight(buf[lptr..rptr]) == TrimRight(buf[lptr..end])
    {
      assert buf[lptr..rptr][..rptr - lptr - 1] == buf[lptr..rptr - 1];
      rptr := rptr - 1;
    }
    assert rptr > lptr ==> buf[lptr..rptr][rptr - lptr - 1] == buf[rptr - 1];
    ghost var kept := buf[lptr..rptr];
    assert kept == buf[lptr..end][..rptr - lptr];
    buf[rptr] := 0;
    assert buf[lptr..rptr] == kept;
  }

  function Joined(before: seq<Byte>, o: Option<seq<Byte>>): Option<seq<Byte>> {
    if o.Some? then Some(before + o.value) else None
  }

  lemma UnescapeStep(before: seq<Byte>, rest: seq<Byte>, b: Byte, n: nat)
    requires |rest| > 0 && Front(rest) == Some((b, n))
    ensures Joined(before, Unescape(rest)) == Joined(before + [b], Unescape(rest[n..]))
  {
    hide Front;
    var o := Unescape(rest[n..]);
    if o.Some? {
      assert before + ([b] + o.value) == (before + [b]) + o.value;
    }
  }

  /** One turn of the copy: the byte to write, and how far the read pointer moves. */
  method NextByte(buf: array<Byte>, lptr: nat, ghost rptr: nat) returns (r: Option<(Byte, nat)>)
    requires Text(buf, lptr, rptr) && lptr < rptr
    ensures r == Front(buf[lptr..rptr])
  {
    ghost var rest := buf[lptr..rptr];
    assert forall k :: lptr <= k < rptr ==> rest[k - lptr] == buf[k];
    if buf[lptr] == BACKSLASH {
      if buf[lptr + 1] == BACKSLASH || buf[lptr + 1] == QUOTE {
        return Some((buf[lptr + 1], 2));
      }
      if buf[lptr + 1] != 120 || !XDigit(buf[lptr + 2]) || !XDigit(buf[lptr + 3]) {
        return None;
      }
      return Some((16 * HexValue(buf[lptr + 2]) + HexValue(buf[lptr + 3]), 4));
    } else if buf[lptr] <= 31 || 128 <= buf[lptr] {
      return None;
    }
    return Some((buf[lptr], 1));
  }

  /** The keyword: the copy never gets past the bytes allocated for it, one for every byte up to
      the closing quote. */
  method CopyKeyword(buf: array<Byte>, start: nat, rptr: nat) returns (r: Option<seq<Byte>>)
    requires Text(buf, start, rptr)
    ensures r == Unescape(buf[start..rptr])
  {
    hide Unescape, Front;
    var data := new Byte[rptr - start];
    var lptr, klen := start, 0;
    JoinedNothing(Unescape(buf[start..rptr]));
    assert data[..0] == [];
    while buf[lptr] != 0
      invariant start <= lptr <= rptr && Text(buf, lptr, rptr)
      invariant klen <= lptr - start
      invariant Unescape(buf[start..rptr]) == Joined(data[..klen], Unescape(buf[lptr..rptr]))
      decreases rptr - lptr
    {
      ghost var rest := buf[lptr..rptr];
      var next := NextByte(buf, lptr, rptr);
      if next == None {
        NothingInFront(rest);
        return None;
      }
      var (b, n) := next.value;
      ghost var before := data[..klen];
      UnescapeStep(before, rest, b, n);
      TextDrop(buf, lptr, lptr + n, rptr);
      data[klen] := b;
      klen := klen + 1;
      assert data[..klen] == before + [b];
      lptr := lptr + n;
    }
    assert buf[lptr..rptr] == [];
    UnescapeNothing();
    r := Some(data[..klen]);
    assert data[..klen] + [] == data[..klen];
  }

  lemma UnescapeNothing()
    ensures Unescape([]) == Some([])
  {
  }

  lemma JoinedNothing(o: Option<seq<Byte>>)
    ensures Joined([], o) == o
  {
    assert o.Some? ==> [] + o.value == o.value;
  }

  lemma NothingInFront(rest: seq<Byte>)
    requires |rest| > 0 && Front(rest) == None
    ensures Unescape(rest) == None
  {
  }

  /** The closing quote, which the text must end in, becomes its NUL. */
  method TakeQuote(buf: array<Byte>, lptr: nat, rptr: nat) returns (ok: bool)
    requires Text(buf, lptr, rptr) && lptr < rptr
    modifies buf
    ensures ok == (old(buf[lptr..rptr])[rptr - lptr - 1] == QUOTE)
    ensures ok ==> Text(buf, lptr, rptr - 1) && buf[lptr..rptr - 1] == old(buf[lptr..rptr])[..rptr - lptr - 1]
  {
    ok := buf[rptr - 1] == QUOTE;
    if ok {
      ghost var kept := buf[lptr..rptr - 1];
      assert kept == buf[lptr..rptr][..rptr - lptr - 1];
      buf[rptr - 1] := 0;
      assert buf[lptr..rptr - 1] == kept;
    }
  }

  /** One line, in the buffer, as `fgets` left it. */
  method ParseLine(buf: array<Byte>, level: nat) returns (o: Outcome)
    requires exists k :: 0 <= k < buf.Length && buf[k] == 0
    modifies buf
    ensures o == Parse(CString(old(buf[..])), level)
  {
    hide DropWhile, TrimRight, Text, CString, ParseLabel;
    ghost var s := CString(buf[..]);
    var end := StringLength(buf);
    var lptr := SkipWhile(buf, 0, end, Space);
    var rptr := CutRight(buf, lptr, end);
    assert buf[lptr..rptr] == TrimRight(DropWhile(s, Space));
    AtFront(buf, lptr, rptr);
    if buf[lptr] == 0 || buf[lptr] == 35 {
      return Skipped;
    }
    var closed := TakeQuote(buf, lptr, rptr);
    if !closed {
      return Fatal;
    }
    o := ParseBody(buf, lptr, rptr - 1, level);
  }

  method ParseBody(buf: array<Byte>, start: nat, rptr: nat, level: nat) returns (o: Outcome)
    requires Text(buf, start, rptr)
    ensures o == ParseLabel(buf[start..rptr], level)
  {
    hide ParseQuoted, DropWhile, TooHigh, Text;
    var lptr := SkipWhile(buf, start, rptr, LabelByte);
    AtFront(buf, lptr, rptr);
    if buf[lptr] == 64 {
      TextDrop(buf, lptr, lptr + 1, rptr);
      lptr := lptr + 1;
      if TooHigh(buf[lptr..rptr], level) {
        return Skipped;
      }
      lptr := SkipWhile(buf, lptr, rptr, Digit);
    }
    o := ParseValue(buf, lptr, rptr);
  }

  method ParseValue(buf: array<Byte>, start: nat, rptr: nat) returns (o: Outcome)
    requires Text(buf, start, rptr)
    ensures o == ParseQuoted(buf[start..rptr])
  {
    hide Unescape, DropWhile, Text;
    var lptr := SkipWhile(buf, start, rptr, SpaceOrEquals);
    AtFront(buf, lptr, rptr);
    if buf[lptr] != QUOTE {
      return Fatal;
    }
    TextDrop(buf, lptr, lptr + 1, rptr);
    lptr := lptr + 1;
    AtFront(buf, lptr, rptr);
    if buf[lptr] == 0 {
      return Fatal;
    }
    var data := CopyKeyword(buf, lptr, rptr);
    if data == None || |data.value| > MAX_DICT_FILE {
      return Fatal;
    }
    o := Token(data.value);
  }

  /** The NUL stands where the text is over, and nowhere else. */
  lemma AtFront(buf: array<Byte>, p: nat, end: nat)
    requires Text(buf, p, end)
    ensures p <= end < buf.Length && (buf[p] == 0 <==> p == end)
    ensures p < end ==> |buf[p..end]| > 0 && buf[p..end][0] == buf[p]
  {
  }

  method StringLength(buf: array<Byte>) returns (n: nat)
    requires exists k :: 0 <= k < buf.Length && buf[k] == 0
    ensures Text(buf, 0, n) && buf[0..n] == CString(buf[..])
  {
    n := 0;
    while buf[n] != 0
      invariant 0 <= n < buf.Length && forall k :: 0 <= k < n ==> buf[k] != 0
      invariant exists k :: n <= k < buf.Length && buf[k] == 0
      decreases buf.Length - n
    {
      n := n + 1;
    }
    CStringStops(buf[..], n);
  }

  function Least(m: nat, ts: seq<seq<Byte>>): nat
    decreases |ts|
  {
    if |ts| == 0 then m else Least(if m > |ts[0]| then |ts[0]| else m, ts[1..])
  }

  function Greatest(m: nat, ts: seq<seq<Byte>>): nat
    decreases |ts|
  {
    if |ts| == 0 then m else Greatest(if m < |ts[0]| then |ts[0]| else m, ts[1..])
  }

  /** The fuzzer's list of user tokens. */
  class Extras {
    var extras: seq<seq<Byte>>
    var minLen: nat
    var maxLen: nat

    constructor ()
      ensures extras == [] && minLen == MAX_DICT_FILE && maxLen == 0
    {
      extras, minLen, maxLen := [], MAX_DICT_FILE, 0;
    }

    /** `fgets`: the next bytes of the file and a NUL. */
    method ReadLine(buf: array<Byte>, file: seq<Byte>) returns (n: nat)
      requires buf.Length > 1 && |file| > 0
      modifies buf
      ensures n == ChunkLen(file, buf.Length - 1) && n < buf.Length
      ensures buf[..n] == file[..n] && buf[n] == 0
    {
      n := 0;
      var more := true;
      while more && n < |file| && n < buf.Length - 1
        invariant 0 <= n <= |file| && n <= buf.Length - 1
        invariant buf[..n] == file[..n]
        invariant ChunkLen(file, buf.Length - 1) == n + if more then ChunkLen(file[n..], buf.Length - 1 - n) else 0
        decreases buf.Length - n
      {
        assert file[n..][1..] == file[n + 1..];
        buf[n] := file[n];
        more := file[n] != NEWLINE;
        n := n + 1;
      }
      buf[n] := 0;
    }

    method LoadFile(file: seq<Byte>, level: nat) returns (ok: bool)
      modifies this
      ensures ok == LoadAll(file, level, MAX_LINE - 1).Some?
      ensures ok ==> var ts := LoadAll(file, level, MAX_LINE - 1).value;
                     extras == old(extras) + ts && minLen == Least(old(minLen), ts) && maxLen == Greatest(old(maxLen), ts)
    {
      hide ChunkLen, Parse, LoadAll, Remaining;
      var buf := new Byte[MAX_LINE];
      var rest := file;
      ghost var before := Lengths(extras, minLen, maxLen);
      ghost var all := LoadAll(file, level, MAX_LINE - 1);
      AllRemaining(before, all);
      while |rest| > 0
        invariant Remaining(before, all, Lengths(extras, minLen, maxLen), LoadAll(rest, level, MAX_LINE - 1))
        decreases |rest|
      {
        var n := ReadLine(buf, rest);
        FirstNul(buf[..], rest, n);
        ghost var here := Lengths(extras, minLen, maxLen);
        LineByLine(before, all, here, rest, n, level, MAX_LINE - 1);
        var o := ParseLine(buf, level);
        match o {
          case Skipped =>
          case Fatal => return false;
          case Token(data) =>
            extras := extras + [data];
            minLen := if minLen > |data| then |data| else minLen;
            maxLen := if maxLen < |data| then |data| else maxLen;
        }
        rest := rest[n..];
      }
      ok := true;
      NothingRemains(before, all, Lengths(extras, minLen, maxLen), rest, level, MAX_LINE - 1);
    }
  }

  datatype Lengths = Lengths(extras: seq<seq<Byte>>, minLen: nat, maxLen: nat)

  function Extended(l: Lengths, data: seq<Byte>): Lengths {
    Lengths(l.extras + [data], if l.minLen > |data| then |data| else l.minLen, if l.maxLen < |data| then |data| else l.maxLen)
  }

  /** What is still to come completes what is there. */
  ghost predicate Remaining(before: Lengths, all: Option<seq<seq<Byte>>>, here: Lengths, rest: Option<seq<seq<Byte>>>) {
    && (all.Some? <==> rest.Some?)
    && (all.Some? ==>
          && here.extras + rest.value == before.extras + all.value
          && Least(here.minLen, rest.value) == Least(before.minLen, all.value)
          && Greatest(here.maxLen, rest.value) == Greatest(before.maxLen, all.value))
  }

  lemma AllRemaining(before: Lengths, all: Option<seq<seq<Byte>>>)
    ensures Remaining(before, all, before, all)
  {
  }

  lemma RemainingToken(before: Lengths, all: Option<seq<seq<Byte>>>, here: Lengths, t: seq<Byte>, rest: Option<seq<seq<Byte>>>)
    requires Remaining(before, all, here, Prepend(t, rest))
    ensures Remaining(before, all, Extended(here, t), rest)
  {
    if rest.Some? {
      assert ([t] + rest.value)[1..] == rest.value;
      assert here.extras + ([t] + rest.value) == (here.extras + [t]) + rest.value;
    }
  }

  lemma LineByLine(before: Lengths, all: Option<seq<seq<Byte>>>, here: Lengths, file: seq<Byte>, n: nat, level: nat, max: nat)
    requires |file| > 0 && max > 0 && n == ChunkLen(file, max)
    requires Remaining(before, all, here, LoadAll(file, level, max))
    ensures match Parse(CString(file[..n]), level)
            case Skipped => Remaining(before, all, here, LoadAll(file[n..], level, max))
            case Fatal => all == None
            case Token(t) => Remaining(before, all, Extended(here, t), LoadAll(file[n..], level, max))
  {
    hide ChunkLen, Parse, Remaining, Extended;
    match Parse(CString(file[..n]), level)
    case Skipped =>
    case Fatal => NoneRemains(before, all, here);
    case Token(t) => RemainingToken(before, all, here, t, LoadAll(file[n..], level, max));
  }

  lemma NoneRemains(before: Lengths, all: Option<seq<seq<Byte>>>, here: Lengths)
    requires Remaining(before, all, here, None)
    ensures all == None
  {
  }

  lemma NothingRemains(before: Lengths, all: Option<seq<seq<Byte>>>, here: Lengths, rest: seq<Byte>, level: nat, max: nat)
    requires |rest| == 0 && max > 0 && Remaining(before, all, here, LoadAll(rest, level, max))
    ensures all.Some? && here.extras == before.extras + all.value
    ensures here.minLen == Least(before.minLen, all.value) && here.maxLen == Greatest(before.maxLen, all.value)
  {
    hide Parse, ChunkLen;
    assert LoadAll(rest, level, max) == Some([]);
    assert here.extras + [] == here.extras;
  }

  lemma FirstNul(buf: seq<Byte>, file: seq<Byte>, n: nat)
    requires n < |buf| && n <= |file| && buf[..n] == file[..n] && buf[n] == 0
    ensures CString(buf) == CString(file[..n])
  {
    var r := CString(file[..n]);
    assert buf[|r|] == 0 by {
      if |r| < n {
        assert buf[..n][|r|] == file[..n][|r|];
      }
    }
    assert buf[..|r|] == buf[..n][..|r|];
    CStringStops(buf, |r|);
  }

  /** The bounds the loader keeps are bounds of what it loaded. */
  lemma {:induction false} BoundsHold(least: nat, greatest: nat, ts: seq<seq<Byte>>)
    ensures Least(least, ts) <= least && greatest <= Greatest(greatest, ts)
    ensures forall t <- ts :: Least(least, ts) <= |t| <= Greatest(greatest, ts)
    ensures Least(least, ts) == least || exists t <- ts :: |t| == Least(least, ts)
    ensures Greatest(greatest, ts) == greatest || exists t <- ts :: |t| == Greatest(greatest, ts)
    decreases |ts|
  {
    if |ts| > 0 {
      var n := |ts[0]|;
      BoundsHold(if least > n then n else least, if greatest < n then n else greatest, ts[1..]);
      assert ts == [ts[0]] + ts[1..];
      assert ts[0] in ts && forall t <- ts[1..] :: t in ts;
    }
  }
}
