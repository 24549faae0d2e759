/**
 * The few Python `str` builtins the relay relies on, over `seq<char>`:
 * `str.find`, `str.split(sep)` with a non-empty separator, `str.strip()`,
 * `int(str)` and `str(int)`. Whitespace and digits are the ASCII ones.
 */
module PyText {
  import opened Wrappers

  /** `p` occurs in `s` starting at index `i`. */
  predicate OccursAt(s: string, p: string, i: nat) {
    i + |p| <= |s| && s[i..i + |p|] == p
  }

  /** Python's `p in s`. */
  predicate Contains(s: string, p: string) {
    exists i: nat :: i <= |s| && OccursAt(s, p, i)
  }

  /** First occurrence of `p` in `s` at an index `>= k` (`s.find(p, k)`, with None for -1). */
  function FindFrom(s: string, p: string, k: nat): (r: Option<nat>)
    requires k <= |s|
    ensures r.Some? ==> k <= r.value && r.value + |p| <= |s|
    decreases |s| - k
  {
    if k + |p| > |s| then None
    else if s[k..k + |p|] == p then Some(k)
    else FindFrom(s, p, k + 1)
  }

  /** `FindFrom` finds an occurrence, and none is skipped on the way. */
  lemma {:induction false} FindFromSpec(s: string, p: string, k: nat)
    requires k <= |s|
    ensures FindFrom(s, p, k).Some? ==> OccursAt(s, p, FindFrom(s, p, k).value)
    ensures FindFrom(s, p, k).Some? ==> forall j: nat :: k <= j < FindFrom(s, p, k).value ==> !OccursAt(s, p, j)
    ensures FindFrom(s, p, k).None? ==> forall j: nat :: k <= j ==> !OccursAt(s, p, j)
    decreases |s| - k
  {
    if k + |p| <= |s| && s[k..k + |p|] != p {
      FindFromSpec(s, p, k + 1);
    }
  }

  /** First occurrence of `p` in `s` (`s.find(p)`). */
  function Find(s: string, p: string): (r: Option<nat>)
    ensures r.Some? ==> OccursAt(s, p, r.value)
  {
    FindFromSpec(s, p, 0);
    FindFrom(s, p, 0)
  }

  /** `Find` gives the first occurrence, and None exactly when there is none. */
  lemma FindSpec(s: string, p: string)
    ensures Find(s, p).Some? ==> OccursAt(s, p, Find(s, p).value)
    ensures Find(s, p).Some? ==> forall j: nat :: j < Find(s, p).value ==> !OccursAt(s, p, j)
    ensures Find(s, p).None? <==> !Contains(s, p)
  {
    FindFromSpec(s, p, 0);
  }

  /** The occurrences in a slice of `s` are the occurrences in `s` that lie inside it. */
  lemma OccursInSlice(s: string, p: string, a: nat, b: nat, x: nat)
    requires a <= b <= |s|
    ensures OccursAt(s[a..b], p, x) <==> a + x + |p| <= b && OccursAt(s, p, a + x)
  {
    if a + x + |p| <= b {
      var u, v := s[a..b][x..x + |p|], s[a + x..a + x + |p|];
      forall i | 0 <= i < |p| ensures u[i] == v[i] {
      }
      assert u == v;
    }
  }

  /** An occurrence with none before it is the first one. */
  lemma FindExact(s: string, p: string, i: nat)
    requires OccursAt(s, p, i) && forall j: nat :: j < i ==> !OccursAt(s, p, j)
    ensures Find(s, p) == Some(i)
  {
    FindSpec(s, p);
  }

  /** Python's `sep.join(parts)`. */
  function Join(parts: seq<string>, sep: string): string
    requires |parts| >= 1
  {
    if |parts| == 1 then parts[0] else parts[0] + sep + Join(parts[1..], sep)
  }

  /**
   * Python's `s.split(sep)` for a non-empty separator: the text before the
   * first occurrence of `sep`, then the split of what follows it.
   */
  function Split(s: string, sep: string): (r: seq<string>)
    requires sep != []
    ensures |r| >= 1
    decreases |s|
  {
    match Find(s, sep)
    case None => [s]
    case Some(i) => [s[..i]] + Split(s[i + |sep|..], sep)
  }

  /** Joining the pieces of `s.split(sep)` with `sep` gives `s` back. */
  lemma {:induction false} SplitJoin(s: string, sep: string)
    requires sep != []
    ensures Join(Split(s, sep), sep) == s
    decreases |s|
  {
    match Find(s, sep)
    case None =>
    case Some(i) =>
      var rest := s[i + |sep|..];
      FindSpec(s, sep);
      calc {
        Join(Split(s, sep), sep);
        { SplitFirst(s, sep, i); JoinCons(s[..i], Split(rest, sep), sep); }
        s[..i] + sep + Join(Split(rest, sep), sep);
        { SplitJoin(rest, sep); }
        s[..i] + sep + rest;
        { assert s[i..i + |sep|] == sep; }
        s;
      }
  }

  /** Joining a piece in front of several. */
  lemma JoinCons(x: string, xs: seq<string>, sep: string)
    requires |xs| >= 1
    ensures Join([x] + xs, sep) == x + sep + Join(xs, sep)
  {
    assert ([x] + xs)[1..] == xs;
  }

  /** The first piece of a split contains no separator. */
  lemma SplitFirstClean(s: string, sep: string)
    requires sep != []
    ensures !Contains(Split(s, sep)[0], sep)
  {
    FindSpec(s, sep);
    match Find(s, sep)
    case None =>
    case Some(i) =>
      assert s[..i] == s[0..i];
      forall x: nat | x <= i && OccursAt(s[..i], sep, x) ensures false {
        OccursInSlice(s, sep, 0, i, x);
      }
  }

  /** No piece of `s.split(sep)` contains `sep`. */
  lemma {:induction false} SplitPiecesClean(s: string, sep: string, m: nat)
    requires sep != [] && m < |Split(s, sep)|
    ensures !Contains(Split(s, sep)[m], sep)
    decreases |s|
  {
    if m == 0 {
      SplitFirstClean(s, sep);
    } else {
      var i := Find(s, sep).value;
      SplitPiecesClean(s[i + |sep|..], sep, m - 1);
    }
  }

  /** `s.split(sep)` has more than one piece exactly when `sep` occurs in `s`. */
  lemma SplitSeveral(s: string, sep: string)
    requires sep != []
    ensures |Split(s, sep)| > 1 <==> Contains(s, sep)
  {
    FindSpec(s, sep);
  }

  /** Without an occurrence of `sep`, `s.split(sep)` is `[s]`. */
  lemma SplitNone(s: string, sep: string)
    requires sep != [] && !Contains(s, sep)
    ensures Split(s, sep) == [s]
  {
    FindSpec(s, sep);
  }

  /**
   * Cutting at the first occurrence, at `i`: the result is the text before it
   * followed by the split of the text after it.
   */
  lemma SplitFirst(s: string, sep: string, i: nat)
    requires sep != [] && Find(s, sep) == Some(i)
    ensures Split(s, sep) == [s[..i]] + Split(s[i + |sep|..], sep)
  {
  }

  /** The second piece when `p` occurs once, at `i`: everything after it. */
  lemma SecondPieceLast(s: string, p: string, i: nat)
    requires p != [] && Find(s, p) == Some(i) && !Contains(s[i + |p|..], p)
    ensures |Split(s, p)| > 1 && Split(s, p)[1] == s[i + |p|..]
  {
    SplitFirst(s, p, i);
    SplitNone(s[i + |p|..], p);
  }

  /**
   * The second piece when the first occurrence of `p` is at `i` and the next
   * one starts `j` characters after its end: the text between the two.
   */
  lemma SecondPieceMiddle(s: string, p: string, i: nat, j: nat)
    requires p != [] && Find(s, p) == Some(i) && Find(s[i + |p|..], p) == Some(j)
    ensures |Split(s, p)| > 1 && Split(s, p)[1] == s[i + |p|..i + |p| + j]
  {
    var rest := s[i + |p|..];
    SplitFirst(s, p, i);
    SplitFirst(rest, p, j);
    assert rest[..j] == s[i + |p|..i + |p| + j];
  }

  /** Characters Python's `str.strip()` removes, restricted to ASCII. */
  predicate IsSpace(c: char) {
    // space, and the control characters 9-13 and 28-31
    c == ' ' || 9 <= c as int <= 13 || 28 <= c as int <= 31
  }

  /** `s.lstrip()`: the suffix of `s` that starts at its first non-space character. */
  function StripLeft(s: string): (r: string)
    ensures |r| <= |s| && r == s[|s| - |r|..]
    ensures forall i :: 0 <= i < |s| - |r| ==> IsSpace(s[i])
    ensures r == [] || !IsSpace(r[0])
  {
    if |s| > 0 && IsSpace(s[0]) then StripLeft(s[1..]) else s
  }

  /** `s.rstrip()`: the prefix of `s` that ends at its last non-space character. */
  function StripRight(s: string): (r: string)
    ensures |r| <= |s| && r == s[..|r|]
    ensures forall i :: |r| <= i < |s| ==> IsSpace(s[i])
    ensures r == [] || !IsSpace(r[|r| - 1])
  {
    if |s| > 0 && IsSpace(s[|s| - 1]) then StripRight(s[..|s| - 1]) else s
  }

  /** `s.strip()`. */
  function Strip(s: string): (r: string)
    ensures |r| <= |s|
    ensures r == [] || (!IsSpace(r[0]) && !IsSpace(r[|r| - 1]))
  {
    var l := StripLeft(s);
    var r := StripRight(l);
    if r != [] then assert r[0] == l[0]; r else r
  }

  /** A string without leading or trailing space is its own strip; in particular strip is idempotent. */
  lemma {:induction false} StripUnchanged(s: string)
    requires s == [] || (!IsSpace(s[0]) && !IsSpace(s[|s| - 1]))
    ensures Strip(s) == s
  {
    assert StripLeft(s) == s;
  }

  lemma StripIdempotent(s: string)
    ensures Strip(Strip(s)) == Strip(s)
  {
    StripUnchanged(Strip(s));
  }

  /** Stripping keeps a first character that is not a space. */
  lemma StripKeepsFirst(s: string)
    requires |s| > 0 && !IsSpace(s[0])
    ensures |Strip(s)| > 0 && Strip(s)[0] == s[0]
  {
    assert StripLeft(s) == s;
  }

  /** Trailing spaces after a stripped string are removed. */
  lemma StripTrailing(x: string, w: string)
    requires |x| > 0 && !IsSpace(x[0]) && !IsSpace(x[|x| - 1])
    requires forall i :: 0 <= i < |w| ==> IsSpace(w[i])
    ensures Strip(x + w) == x
  {
    var s := x + w;
    assert StripLeft(s) == s;
    var r := StripRight(s);
    assert r == s[..|x|] == x;
  }

  predicate IsDigit(c: char) { '0' <= c <= '9' }

  predicate AllDigits(s: string) { forall i :: 0 <= i < |s| ==> IsDigit(s[i]) }

  /** Decimal value of a run of digits, most significant first. */
  function DigitsValue(s: string): (v: nat)
    requires AllDigits(s)
    decreases |s|
  {
    if s == [] then 0 else DigitsValue(s[..|s| - 1]) * 10 + (s[|s| - 1] - '0') as nat
  }

  /**
   * Python's `int(s)` on an already stripped string: an optional `+` or `-`
   * followed by one or more decimal digits; anything else is a ValueError,
   * modelled as None.
   */
  function ParseInt(s: string): (r: Option<int>)
    ensures r.Some? ==> |s| > 0 && (IsDigit(s[0]) || ((s[0] == '+' || s[0] == '-') && |s| > 1))
    ensures r.Some? ==> forall i :: 1 <= i < |s| ==> IsDigit(s[i])
    ensures r.Some? && s[0] == '-' ==> r.value <= 0
    ensures r.Some? && s[0] != '-' ==> r.value >= 0
  {
    var signed := |s| > 0 && (s[0] == '+' || s[0] == '-');
    var digits := if signed then s[1..] else s;
    if digits == [] || !AllDigits(digits) then None
    else if signed && s[0] == '-' then Some(-(DigitsValue(digits) as int))
    else Some(DigitsValue(digits))
  }

  /** Python's `int(s)` for a `str` argument: surrounding whitespace is ignored. */
  function PyInt(s: string): (r: Option<int>)
    ensures Strip(s) == [] ==> r == None
  {
    ParseInt(Strip(s))
  }

  /** `int(x.strip())` is `int(x)`: the explicit strip before `int` changes nothing. */
  lemma PyIntStripped(s: string)
    ensures PyInt(Strip(s)) == PyInt(s)
  {
    StripIdempotent(s);
  }

  function DigitChar(d: nat): (c: char)
    requires d < 10
    ensures IsDigit(c) && (c - '0') as nat == d
  {
    ('0' as int + d) as char
  }

  /** Python's `str(n)` for a natural number: its decimal digits, no leading zero. */
  function Decimal(n: nat): (r: string)
    ensures |r| >= 1 && AllDigits(r)
    ensures |r| > 1 ==> r[0] != '0'
  {
    if n < 10 then [DigitChar(n)] else Decimal(n / 10) + [DigitChar(n % 10)]
  }

  lemma {:induction false} DecimalValue(n: nat)
    ensures DigitsValue(Decimal(n)) == n
  {
    if n >= 10 {
      var d := Decimal(n);
      assert d[..|d| - 1] == Decimal(n / 10);
      DecimalValue(n / 10);
    }
  }

  /** `int` of a run of digits worth `n` is `n`. */
  lemma PyIntDigits(d: string, n: nat)
    requires |d| > 0 && AllDigits(d) && DigitsValue(d) == n
    ensures PyInt(d) == Some(n)
  {
    StripUnchanged(d);
    ParseIntLiteral("", d);
    assert "" + d == d;
  }

  /**
   * Every literal parses: an optional `+` or `-` followed by digits gives
   * the value of the digits, negated after `-`.
   */
  lemma ParseIntLiteral(sign: string, d: string)
    requires sign == "" || sign == "+" || sign == "-"
    requires |d| > 0 && AllDigits(d)
    ensures ParseInt(sign + d) == Some(if sign == "-" then -(DigitsValue(d) as int) else DigitsValue(d))
  {
    var s := sign + d;
    if sign == "" {
      assert s == d;
      ParseIntUnsigned(d);
    } else {
      assert s[0] == sign[0] && s[1..] == d;
      ParseIntSigned(s);
    }
  }

  /** An unsigned literal: the value of its digits. */
  lemma ParseIntUnsigned(d: string)
    requires |d| > 0 && AllDigits(d)
    ensures ParseInt(d) == Some(DigitsValue(d))
  {
  }

  /** A signed literal: the value of the digits after the sign, negated after `-`. */
  lemma ParseIntSigned(s: string)
    requires |s| > 1 && (s[0] == '+' || s[0] == '-') && AllDigits(s[1..])
    ensures ParseInt(s) == Some(if s[0] == '-' then -(DigitsValue(s[1..]) as int) else DigitsValue(s[1..]))
  {
  }

  /** `int` of a minus sign followed by a run of digits worth `n` is `-n`. */
  lemma PyIntNegativeDigits(d: string, n: nat)
    requires |d| > 0 && AllDigits(d) && DigitsValue(d) == n
    ensures PyInt("-" + d) == Some(-(n as int))
  {
    var s := "-" + d;
    assert s[|s| - 1] == d[|d| - 1];
    StripUnchanged(s);
    ParseIntLiteral("-", d);
  }

  /** `int(str(n)) == n`. */
  lemma DecimalRoundTrip(n: nat)
    ensures PyInt(Decimal(n)) == Some(n)
  {
    DecimalValue(n);
    PyIntDigits(Decimal(n), n);
  }

  /** `int("-" + str(n)) == -n`. */
  lemma NegativeDecimalRoundTrip(n: nat)
    ensures PyInt("-" + Decimal(n)) == Some(-(n as int))
  {
    DecimalValue(n);
    PyIntNegativeDigits(Decimal(n), n);
  }

  /** No digit string contains a separator that has a non-digit character. */
  lemma DigitsAvoid(s: string, p: string, k: nat)
    requires AllDigits(s) && k < |p| && !IsDigit(p[k])
    ensures !Contains(s, p)
  {
  }

  /** So splitting a digit string on such a separator leaves it whole. */
  lemma DigitsSplit(s: string, p: string, k: nat)
    requires AllDigits(s) && k < |p| && !IsDigit(p[k])
    ensures Split(s, p) == [s]
  {
    DigitsAvoid(s, p, k);
    SplitNone(s, p);
  }

  /** `int` of the stripped first piece of such a split is `int` of the digit string. */
  lemma DigitsFirstPiece(s: string, p: string, k: nat, n: int)
    requires |s| > 0 && AllDigits(s) && k < |p| && !IsDigit(p[k]) && PyInt(s) == Some(n)
    ensures PyInt(Strip(Split(s, p)[0])) == Some(n)
  {
    DigitsSplit(s, p, k);
    StripUnchanged(s);
  }
}
