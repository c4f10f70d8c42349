/** Bytes and text rendering used by the source: the nibbles of a byte, the
    decimal form that `std::to_string` and `operator<<` give an integer, and
    separator-joined lists. Each
    rendering has a parser beside it, and the lemmas prove that parsing a
    rendering gives back what was rendered. */
module Text {
  import opened Wrappers

  /** An `unsigned char` / `uint8_t`. */
  type Byte = b: int | 0 <= b < 0x100

  /** `(b >> 4) & 0xf`: the high four bits of a byte. */
  function HighNibble(b: Byte): (n: nat)
    ensures n < 16 && n * 16 <= b
  {
    b / 16
  }

  /** `b & 0xf`: the low four bits, which with the high nibble rebuild the
      byte. */
  function LowNibble(b: Byte): (n: nat)
    ensures n < 16 && HighNibble(b) * 16 + n == b
  {
    b % 16
  }

  predicate IsDigit(c: char) {
    '0' <= c <= '9'
  }

  function DigitChar(d: nat): (c: char)
    requires d < 10
    ensures IsDigit(c)
  {
    (('0' as int) + d) as char
  }

  function DigitValue(c: char): (d: nat)
    requires IsDigit(c)
    ensures d < 10 && DigitChar(d) == c
  {
    (c as int) - ('0' as int)
  }

  /** Decimal digits of `n`, most significant first, without leading zeros. */
  function Decimal(n: nat): (s: string)
    ensures |s| >= 1
    ensures forall i :: 0 <= i < |s| ==> IsDigit(s[i])
    ensures s[0] == '0' ==> n == 0 && s == "0"
    decreases n
  {
    if n < 10 then [DigitChar(n)] else Decimal(n / 10) + [DigitChar(n % 10)]
  }

  /** `std::to_string` of a (possibly negative) `int`: a '-' exactly for a
      negative value, then decimal digits. */
  function IntString(i: int): (s: string)
    ensures |s| >= 1
    ensures (s[0] == '-') <==> i < 0
    ensures forall k :: (if i < 0 then 1 else 0) <= k < |s| ==> IsDigit(s[k])
  {
    if i < 0 then "-" + Decimal(-i) else Decimal(i)
  }

  /** Reads an optionally negative decimal number: `None` unless the string
      is digits, or a '-' followed by digits. */
  function ParseInt(s: string): (r: Option<int>)
    ensures r.Some? <==> (|s| >= 1 && s[0] != '-' && ParseDecimal(s).Some?)
                         || (|s| >= 2 && s[0] == '-' && ParseDecimal(s[1..]).Some?)
    ensures r.Some? && s[0] == '-' ==> r.value <= 0
    ensures r.Some? && s[0] != '-' ==> r.value >= 0
  {
    if |s| >= 1 && s[0] == '-' then
      var n := ParseDecimal(s[1..]);
      if n.Some? then Some(-(n.value as int)) else None
    else
      var n := ParseDecimal(s);
      if n.Some? then Some(n.value as int) else None
  }

  /** Value of a non-empty string of digits, read most significant first. */
  function DigitsValue(s: string): nat
    requires forall i :: 0 <= i < |s| ==> IsDigit(s[i])
  {
    if s == [] then 0 else DigitsValue(s[..|s| - 1]) * 10 + DigitValue(s[|s| - 1])
  }

  /** Reads a decimal number: `None` for an empty string or a non-digit. */
  function ParseDecimal(s: string): (r: Option<nat>)
    ensures r.Some? <==> |s| >= 1 && forall i :: 0 <= i < |s| ==> IsDigit(s[i])
  {
    if |s| >= 1 && forall i :: 0 <= i < |s| ==> IsDigit(s[i]) then Some(DigitsValue(s)) else None
  }

  lemma {:induction false} DigitsValueOfDecimal(n: nat)
    ensures DigitsValue(Decimal(n)) == n
    decreases n
  {
    if n >= 10 {
      DigitsValueOfDecimal(n / 10);
      var s := Decimal(n);
      assert s[..|s| - 1] == Decimal(n / 10);
    }
  }

  /** Reading back a rendered number gives the number. */
  lemma ParseDecimalOfDecimal(n: nat)
    ensures ParseDecimal(Decimal(n)) == Some(n)
  {
    DigitsValueOfDecimal(n);
  }

  /** Reading back `std::to_string` of any int, negative or not, gives the
      int. */
  lemma ParseIntOfIntString(i: int)
    ensures ParseInt(IntString(i)) == Some(i)
  {
    if i < 0 {
      ParseDecimalOfDecimal(-i);
      assert IntString(i)[1..] == Decimal(-i);
    } else {
      ParseDecimalOfDecimal(i);
    }
  }

  /** `parts` separated by `sep`, with no separator before the first or after
      the last part. */
  function Join(parts: seq<string>, sep: char): (s: string)
    decreases |parts|
  {
    if |parts| == 0 then []
    else if |parts| == 1 then parts[0]
    else Join(parts[..|parts| - 1], sep) + [sep] + parts[|parts| - 1]
  }

  /** `parts` with `b` appended to its last piece. */
  function AppendToLast(parts: seq<string>, b: string): (r: seq<string>)
    requires |parts| >= 1
    ensures |r| == |parts|
  {
    parts[..|parts| - 1] + [parts[|parts| - 1] + b]
  }

  lemma AppendToLastTwice(parts: seq<string>, b: string, c: string)
    requires |parts| >= 1
    ensures AppendToLast(AppendToLast(parts, b), c) == AppendToLast(parts, b + c)
  {
    var q := AppendToLast(parts, b);
    assert q[..|q| - 1] == parts[..|parts| - 1];
    assert q[|q| - 1] + c == parts[|parts| - 1] + (b + c);
  }

  /** The pieces of `s` between occurrences of `sep` (always at least one). */
  function Split(s: string, sep: char): (parts: seq<string>)
    ensures |parts| >= 1
    decreases |s|
  {
    if s == [] then [[]]
    else
      var init := Split(s[..|s| - 1], sep);
      if s[|s| - 1] == sep then init + [[]]
      else AppendToLast(init, [s[|s| - 1]])
  }

  /** Appending a character other than the separator extends the last piece. */
  lemma SplitSnoc(s: string, c: char, sep: char)
    requires c != sep
    ensures Split(s + [c], sep) == AppendToLast(Split(s, sep), [c])
  {
    assert (s + [c])[..|s + [c]| - 1] == s;
  }

  lemma {:induction false} SplitAppendPlain(a: string, b: string, sep: char)
    requires sep !in b
    ensures Split(a + b, sep) == AppendToLast(Split(a, sep), b)
    decreases |b|
  {
    var pa := Split(a, sep);
    if b == [] {
      assert a + b == a;
      assert pa[|pa| - 1] + b == pa[|pa| - 1];
      assert pa[..|pa| - 1] + [pa[|pa| - 1]] == pa;
    } else {
      var b', c := b[..|b| - 1], b[|b| - 1];
      assert b == b' + [c];
      assert sep !in b';
      SplitAppendPlain(a, b', sep);
      assert a + b == (a + b') + [c];
      SplitSnoc(a + b', c, sep);
      AppendToLastTwice(pa, b', [c]);
    }
  }

  lemma SplitAppendSeparator(a: string, b: string, sep: char)
    requires sep !in b
    ensures Split(a + [sep] + b, sep) == Split(a, sep) + [b]
  {
    SplitAppendPlain(a + [sep], b, sep);
    assert (a + [sep])[..|a + [sep]| - 1] == a;
    var p := Split(a + [sep], sep);
    assert p == Split(a, sep) + [[]];
    assert p[..|p| - 1] == Split(a, sep);
    assert p[|p| - 1] + b == b;
  }

  /** Splitting a join gives back the parts, as long as no part contains the
      separator. */
  lemma {:induction false} SplitJoin(parts: seq<string>, sep: char)
    requires |parts| >= 1
    requires forall i :: 0 <= i < |parts| ==> sep !in parts[i]
    ensures Split(Join(parts, sep), sep) == parts
    decreases |parts|
  {
    if |parts| == 1 {
      SplitAppendPlain([], parts[0], sep);
      assert [] + parts[0] == parts[0];
    } else {
      var init := parts[..|parts| - 1];
      SplitJoin(init, sep);
      SplitAppendSeparator(Join(init, sep), parts[|parts| - 1], sep);
      assert init + [parts[|parts| - 1]] == parts;
    }
  }

  lemma DecimalHasOnlyDigits(n: nat, c: char)
    requires !IsDigit(c)
    ensures c !in Decimal(n)
  {
  }
}
