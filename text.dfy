/** The .NET string operations the program relies on: `String.Split(char)`, `String.Join`,
    `int.Parse` and the decimal form of an `int` in string interpolation. */
module Text {
  import opened Wrappers
  import opened Data

  // ---------------------------------------------------------------- Split and Join

  /** `s.Split(d)`: the fields between occurrences of `d`, empty fields included,
      so there is always one field more than there are separators. */
  function Split(s: string, d: char): (fields: seq<string>)
    ensures |fields| >= 1
    ensures forall i :: 0 <= i < |fields| ==> d !in fields[i]
  {
    if s == [] then [[]]
    else if s[0] == d then [[]] + Split(s[1..], d)
    else
      var rest := Split(s[1..], d);
      [[s[0]] + rest[0]] + rest[1..]
  }

  /** The lengths of `parts`, added up. */
  function Lengths(parts: seq<string>): nat {
    if parts == [] then 0 else |parts[0]| + Lengths(parts[1..])
  }

  /** `string.Join(sep, parts)`: the parts in order with `sep` between neighbours. */
  function Join(parts: seq<string>, sep: string): string {
    if parts == [] then []
    else if |parts| == 1 then parts[0]
    else parts[0] + sep + Join(parts[1..], sep)
  }

  /** A join is as long as its parts plus one separator per gap between them. */
  lemma {:induction false} JoinLength(parts: seq<string>, sep: string)
    requires parts != []
    ensures |Join(parts, sep)| == Lengths(parts) + (|parts| - 1) * |sep|
  {
    if |parts| > 1 {
      JoinLength(parts[1..], sep);
    }
  }

  /** Appending a part adds one separator and the part at the end, and nothing after it. */
  lemma {:induction false} JoinSnoc(parts: seq<string>, p: string, sep: string)
    requires parts != []
    ensures Join(parts + [p], sep) == Join(parts, sep) + sep + p
  {
    if |parts| > 1 {
      assert (parts + [p])[1..] == parts[1..] + [p];
      JoinSnoc(parts[1..], p, sep);
    }
  }

  /** A character found in neither the parts nor the separator is not in their join. */
  lemma {:induction false} JoinAvoids(parts: seq<string>, sep: string, c: char)
    requires c !in sep
    requires forall i :: 0 <= i < |parts| ==> c !in parts[i]
    ensures c !in Join(parts, sep)
  {
    if |parts| > 1 {
      JoinAvoids(parts[1..], sep, c);
    }
  }

  /** Joining the fields of a split with the same separator gives back the string. */
  lemma {:induction false} SplitJoin(s: string, d: char)
    ensures Join(Split(s, d), [d]) == s
  {
    if s != [] {
      SplitJoin(s[1..], d);
      var rest := Split(s[1..], d);
      if s[0] != d && |rest| > 1 {
        assert Join(rest, [d]) == rest[0] + [d] + Join(rest[1..], [d]);
      }
    }
  }

  /** Splitting a string whose first field is `p`. */
  lemma {:induction false} SplitPrefix(p: string, tail: string, d: char)
    requires d !in p
    ensures Split(p + tail, d) == [p + Split(tail, d)[0]] + Split(tail, d)[1..]
  {
    if p != [] {
      var r := Split(tail, d);
      assert (p + tail)[0] == p[0] && (p + tail)[1..] == p[1..] + tail;
      SplitPrefix(p[1..], tail, d);
      assert [p[0]] + (p[1..] + r[0]) == p + r[0];
    } else {
      var r := Split(tail, d);
      assert p + tail == tail;
      assert p + r[0] == r[0];
      assert r == [r[0]] + r[1..];
    }
  }

  /** Splitting a concatenation at a separator splits both halves. */
  lemma {:induction false} SplitConcat(a: string, b: string, d: char)
    ensures Split(a + [d] + b, d) == Split(a, d) + Split(b, d)
  {
    if a == [] {
      assert a + [d] + b == [d] + b;
      assert ([d] + b)[1..] == b;
    } else {
      assert (a + [d] + b)[0] == a[0];
      assert (a + [d] + b)[1..] == a[1..] + [d] + b;
      SplitConcat(a[1..], b, d);
    }
  }

  /** Splitting the join of separator-free parts gives back the parts. */
  lemma {:induction false} JoinSplit(parts: seq<string>, d: char)
    requires parts != []
    requires forall i :: 0 <= i < |parts| ==> d !in parts[i]
    ensures Split(Join(parts, [d]), d) == parts
  {
    if |parts| == 1 {
      SplitPrefix(parts[0], [], d);
      assert parts[0] + [] == parts[0];
      assert Split([], d) == [[]];
      assert parts[0] + Split([], d)[0] == parts[0];
      assert Split([], d)[1..] == [];
    } else {
      var rest := Join(parts[1..], [d]);
      JoinSplit(parts[1..], d);
      assert parts[0] + [d] + rest == parts[0] + ([d] + rest);
      SplitPrefix(parts[0], [d] + rest, d);
      assert ([d] + rest)[0] == d && ([d] + rest)[1..] == rest;
      assert Split([d] + rest, d) == [[]] + parts[1..];
      assert parts[0] + [] == parts[0];
      assert parts == [parts[0]] + parts[1..];
    }
  }

  // ---------------------------------------------------------------- decimal digits

  predicate IsDigit(c: char) {
    '0' <= c <= '9'
  }

  predicate AllDigits(s: string) {
    forall i :: 0 <= i < |s| ==> IsDigit(s[i])
  }

  function DigitChar(n: nat): (c: char)
    requires n < 10
    ensures IsDigit(c)
  {
    (('0' as int) + n) as char
  }

  /** The number a string of decimal digits denotes, most significant digit first. */
  function DigitsValue(s: string): nat
    requires AllDigits(s)
  {
    if s == [] then 0
    else DigitsValue(s[..|s| - 1]) * 10 + ((s[|s| - 1] as int) - ('0' as int))
  }

  /** The shortest decimal form of `n`. */
  function NatDigits(n: nat): (s: string)
    ensures |s| >= 1 && AllDigits(s)
  {
    if n < 10 then [DigitChar(n)] else NatDigits(n / 10) + [DigitChar(n % 10)]
  }

  lemma {:induction false} NatDigitsValue(n: nat)
    ensures DigitsValue(NatDigits(n)) == n
  {
    if n >= 10 {
      NatDigitsValue(n / 10);
      var s := NatDigits(n);
      assert s[..|s| - 1] == NatDigits(n / 10);
    }
  }

  /** The shortest decimal form starts with '0' only when it is the number zero. */
  lemma {:induction false} NatDigitsLead(n: nat)
    ensures NatDigits(n)[0] == '0' <==> n == 0
  {
    if n >= 10 {
      NatDigitsLead(n / 10);
      assert NatDigits(n)[0] == NatDigits(n / 10)[0];
    }
  }

  // ---------------------------------------------------------------- int formatting and parsing

  /** `{n}` in an interpolated string: an optional '-' and the decimal digits. */
  function FormatInt(n: int): (s: string)
    ensures |s| >= 1
    ensures (n < 0 && s[0] == '-' && AllDigits(s[1..])) || (0 <= n && AllDigits(s))
  {
    if n < 0 then ['-'] + NatDigits(-n) else NatDigits(n)
  }

  /** The decimal form is the shortest one: zero is written "0", and the first digit of any
      other number is not '0'. */
  lemma FormatIntCanonical(n: int)
    ensures FormatInt(n) == "0" <==> n == 0
    ensures var lead := if n < 0 then 1 else 0;
      |FormatInt(n)| > lead && (FormatInt(n)[lead] == '0' <==> n == 0)
  {
    if n < 0 {
      NatDigitsLead(-n);
      assert FormatInt(n)[1] == NatDigits(-n)[0];
    } else {
      NatDigitsLead(n);
    }
  }

  /** The white space `int.Parse` skips around a number: U+0009 to U+000D and U+0020. */
  predicate IsWhite(c: char) {
    c == ' ' || '\t' <= c <= '\r'
  }

  predicate AllWhite(s: string) {
    forall i :: 0 <= i < |s| ==> IsWhite(s[i])
  }

  function TrimStart(s: string): (t: string)
    ensures t == [] || !IsWhite(t[0])
  {
    if s != [] && IsWhite(s[0]) then TrimStart(s[1..]) else s
  }

  function TrimEnd(s: string): (t: string)
    ensures t == [] || !IsWhite(t[|t| - 1])
  {
    if s != [] && IsWhite(s[|s| - 1]) then TrimEnd(s[..|s| - 1]) else s
  }

  predicate InInt32Range(v: int) {
    -0x8000_0000 <= v < 0x8000_0000
  }

  /** `int.Parse(s)` with the default integer style: optional white space, an optional
      '+' or '-', one or more decimal digits, optional white space. A string of that shape
      whose value does not fit in 32 bits overflows; any other string is not an integer. */
  function ParseInt(s: string): (r: Result<int32, Error>)
    ensures r.Failure? ==> r.error == NotAnInteger || r.error == Overflow
  {
    ParseSigned(TrimEnd(TrimStart(s)))
  }

  /** `int.Parse` once the surrounding white space is gone. */
  function ParseSigned(t: string): (r: Result<int32, Error>)
    ensures r.Failure? ==> r.error == NotAnInteger || r.error == Overflow
  {
    var signed := |t| > 0 && (t[0] == '-' || t[0] == '+');
    var body := if signed then t[1..] else t;
    if body == [] || !AllDigits(body) then Failure(NotAnInteger)
    else
      var magnitude: int := DigitsValue(body);
      var v := if signed && t[0] == '-' then -magnitude else magnitude;
      if InInt32Range(v) then Success(v as int32) else Failure(Overflow)
  }

  /** `TrimStart` drops a prefix of white space and nothing else. */
  lemma {:induction false} TrimStartSplit(s: string)
    ensures var k := |s| - |TrimStart(s)|;
      0 <= k && s[k..] == TrimStart(s) && AllWhite(s[..k])
  {
    if s != [] && IsWhite(s[0]) {
      TrimStartSplit(s[1..]);
      var k := |s| - |TrimStart(s)|;
      assert s[1..][k - 1..] == s[k..];
      assert forall i :: 1 <= i < k ==> s[..k][i] == s[1..][..k - 1][i - 1];
    }
  }

  /** `TrimEnd` drops a suffix of white space and nothing else. */
  lemma {:induction false} TrimEndSplit(s: string)
    ensures var k := |TrimEnd(s)|;
      k <= |s| && s[..k] == TrimEnd(s) && AllWhite(s[k..])
  {
    if s != [] && IsWhite(s[|s| - 1]) {
      var front := s[..|s| - 1];
      TrimEndSplit(front);
      var k := |TrimEnd(s)|;
      assert front[..k] == s[..k];
      assert forall j :: 0 <= j < |s| - 1 - k ==> s[k..][j] == front[k..][j];
    }
  }

  lemma {:induction false} TrimStartWhite(w: string, x: string)
    requires AllWhite(w)
    requires x != [] && !IsWhite(x[0])
    ensures TrimStart(w + x) == x
  {
    if w != [] {
      assert (w + x)[1..] == w[1..] + x;
      TrimStartWhite(w[1..], x);
    } else {
      assert w + x == x;
    }
  }

  lemma {:induction false} TrimEndWhite(x: string, w: string)
    requires AllWhite(w)
    requires x != [] && !IsWhite(x[|x| - 1])
    ensures TrimEnd(x + w) == x
  {
    if w != [] {
      assert (x + w)[..|x + w| - 1] == x + w[..|w| - 1];
      TrimEndWhite(x, w[..|w| - 1]);
    } else {
      assert x + w == x;
    }
  }

  lemma TrimAround(w1: string, x: string, w2: string)
    requires AllWhite(w1) && AllWhite(w2)
    requires x != [] && !IsWhite(x[0]) && !IsWhite(x[|x| - 1])
    ensures TrimEnd(TrimStart(w1 + x + w2)) == x
  {
    assert w1 + x + w2 == w1 + (x + w2);
    TrimStartWhite(w1, x + w2);
    TrimEndWhite(x, w2);
  }

  lemma FormatParseSigned(n: int32)
    ensures ParseSigned(FormatInt(n as int)) == Success(n)
  {
    var s := FormatInt(n as int);
    if n < 0 {
      NatDigitsValue(-(n as int));
      assert s[1..] == NatDigits(-(n as int));
    } else {
      NatDigitsValue(n as int);
    }
  }

  /** The strings `int.Parse` reads as integers: white space, an optional sign, one or more
      decimal digits, white space. */
  predicate IntegerText(w1: string, sign: string, digits: string, w2: string) {
    AllWhite(w1) && AllWhite(w2) && (sign == [] || sign == ['+'] || sign == ['-']) &&
    digits != [] && AllDigits(digits)
  }

  /** The value an optional sign and a run of digits denote. */
  function SignedValue(sign: string, digits: string): int
    requires AllDigits(digits)
  {
    var m: int := DigitsValue(digits);
    if sign == ['-'] then -m else m
  }

  /** Once the white space is gone, a signed run of digits parses to its value, or overflows. */
  lemma ParseSignedShape(sign: string, digits: string)
    requires sign == [] || sign == ['+'] || sign == ['-']
    requires digits != [] && AllDigits(digits)
    ensures ParseSigned(sign + digits) ==
      if InInt32Range(SignedValue(sign, digits)) then Success(SignedValue(sign, digits) as int32)
      else Failure(Overflow)
  {
    var x := sign + digits;
    if sign == [] {
      assert x == digits;
      assert IsDigit(x[0]);
    } else {
      assert x[0] == sign[0] && x[1..] == digits;
    }
  }

  /** An integer text parses to its signed value when that fits in 32 bits, and fails with
      `Overflow` when it does not. */
  lemma ParseIntShape(w1: string, sign: string, digits: string, w2: string)
    requires IntegerText(w1, sign, digits, w2)
    ensures ParseInt(w1 + sign + digits + w2) ==
      if InInt32Range(SignedValue(sign, digits)) then Success(SignedValue(sign, digits) as int32)
      else Failure(Overflow)
  {
    var x := sign + digits;
    assert w1 + sign + digits + w2 == w1 + x + w2;
    assert x[|x| - 1] == digits[|digits| - 1];
    assert x[0] == if sign == [] then digits[0] else sign[0];
    TrimAround(w1, x, w2);
    ParseSignedShape(sign, digits);
  }

  /** What `ParseSigned` accepts is an optional sign followed by one or more digits. */
  lemma SignedSplit(t: string) returns (sign: string, digits: string)
    requires ParseSigned(t) != Failure(NotAnInteger)
    ensures sign == [] || sign == ['+'] || sign == ['-']
    ensures digits != [] && AllDigits(digits) && t == sign + digits
  {
    if |t| > 0 && (t[0] == '-' || t[0] == '+') {
      sign, digits := t[..1], t[1..];
      assert sign == [t[0]];
    } else {
      sign, digits := [], t;
    }
  }

  /** A string is its leading white space, its trimmed text and its trailing white space. */
  lemma TrimParts(s: string) returns (w1: string, w2: string)
    ensures AllWhite(w1) && AllWhite(w2)
    ensures s == w1 + TrimEnd(TrimStart(s)) + w2
  {
    var u := TrimStart(s);
    var t := TrimEnd(u);
    TrimStartSplit(s);
    TrimEndSplit(u);
    w1, w2 := s[..|s| - |u|], u[|t|..];
    assert s == w1 + u;
    assert u == t + w2;
    assert w1 + (t + w2) == w1 + t + w2;
  }

  /** The white space, sign and digits of a string `int.Parse` reads as an integer. */
  lemma IntegerTextOf(s: string) returns (w1: string, sign: string, digits: string, w2: string)
    requires ParseInt(s) != Failure(NotAnInteger)
    ensures IntegerText(w1, sign, digits, w2) && s == w1 + sign + digits + w2
  {
    var t := TrimEnd(TrimStart(s));
    w1, w2 := TrimParts(s);
    sign, digits := SignedSplit(t);
    assert w1 + (sign + digits) == w1 + sign + digits;
  }

  /** Every string `int.Parse` does not reject as "not an integer" is an integer text. */
  lemma ParseIntOnlyIntegers(s: string)
    ensures ParseInt(s) != Failure(NotAnInteger) ==>
      exists w1, sign, digits, w2 :: IntegerText(w1, sign, digits, w2) && s == w1 + sign + digits + w2
  {
    if ParseInt(s) != Failure(NotAnInteger) {
      var w1, sign, digits, w2 := IntegerTextOf(s);
    }
  }

  /** Parsing the decimal form of any 32-bit value, with any white space around it,
      gives back the value. */
  lemma FormatParse(n: int32, w1: string, w2: string)
    requires AllWhite(w1) && AllWhite(w2)
    ensures ParseInt(w1 + FormatInt(n as int) + w2) == Success(n)
  {
    var s := FormatInt(n as int);
    assert !IsWhite(s[0]) && !IsWhite(s[|s| - 1]);
    TrimAround(w1, s, w2);
    FormatParseSigned(n);
  }

  /** Parsing the decimal form of any 32-bit value gives back the value. */
  lemma ParseFormatted(n: int32)
    ensures ParseInt(FormatInt(n as int)) == Success(n)
  {
    FormatParse(n, [], []);
    assert [] + FormatInt(n as int) + [] == FormatInt(n as int);
  }

  /** The decimal form of a number holds only digits and '-'. */
  lemma FormatIntAvoids(n: int, c: char)
    requires c != '-' && !IsDigit(c)
    ensures c !in FormatInt(n)
  {
    var s := FormatInt(n);
    assert s[0] == '-' || IsDigit(s[0]);
    assert forall m :: 1 <= m < |s| ==> IsDigit(s[m]);
  }
}
