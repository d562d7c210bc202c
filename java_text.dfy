/**
 The three pieces of the Java library that a ring node relies on to read and
 write its one-line messages: `String.split(" ")`, `Integer.parseInt` and
 `Integer.toString`, stated over `string` (a `seq<char>`).
 */
module JavaText {

  datatype Option<T> = None | Some(value: T)

  const INT_MIN: int := -0x8000_0000
  const INT_MAX: int := 0x7FFF_FFFF

  /** The values a Java `int` can hold. */
  predicate IsInt32(n: int) {
    INT_MIN <= n <= INT_MAX
  }

  // ---------------------------------------------------------------------
  // String.split(" ")
  // ---------------------------------------------------------------------

  /** The inverse of cutting at spaces: the parts glued back with one space between each two. */
  function Join(parts: seq<string>): string {
    if |parts| == 0 then ""
    else if |parts| == 1 then parts[0]
    else parts[0] + " " + Join(parts[1..])
  }

  /** The string cut at every space, empty pieces included: n spaces give n + 1 pieces. */
  function Pieces(s: string): (r: seq<string>)
    ensures |r| >= 1
    ensures forall i :: 0 <= i < |r| ==> ' ' !in r[i]
    ensures Join(r) == s
    decreases |s|
  {
    if s == [] then [""]
    else
      var rest := Pieces(s[1..]);
      if s[0] == ' ' then
        assert ([""] + rest)[1..] == rest;
        [""] + rest
      else
        var r := [[s[0]] + rest[0]] + rest[1..];
        assert r[1..] == rest[1..];
        assert s == [s[0]] + s[1..];
        r
  }

  /** Removes the empty pieces at the end, as `split` does with its limit left at zero. */
  function DropTrailingEmpty(p: seq<string>): (r: seq<string>)
    ensures r <= p
    ensures |r| == 0 || r[|r| - 1] != ""
    ensures forall i :: |r| <= i < |p| ==> p[i] == ""
  {
    if |p| == 0 || p[|p| - 1] != "" then p
    else DropTrailingEmpty(p[..|p| - 1])
  }

  /** Gluing one more part on the right adds a space and that part. */
  lemma {:induction false} JoinSnoc(q: seq<string>, x: string)
    requires |q| >= 1
    ensures Join(q + [x]) == Join(q) + " " + x
    decreases |q|
  {
    if |q| == 1 {
      assert (q + [x])[1..] == [x];
    } else {
      assert (q + [x])[1..] == q[1..] + [x];
      JoinSnoc(q[1..], x);
    }
  }

  /** Dropping the empty pieces at the end only drops spaces at the end of the joined text. */
  lemma {:induction false} JoinDropTrailingEmpty(p: seq<string>)
    ensures Join(DropTrailingEmpty(p)) <= Join(p)
    ensures forall i :: |Join(DropTrailingEmpty(p))| <= i < |Join(p)| ==> Join(p)[i] == ' '
    decreases |p|
  {
    if |p| == 0 || p[|p| - 1] != "" {
    } else {
      var q := p[..|p| - 1];
      assert p == q + [""];
      JoinDropTrailingEmpty(q);
      if |q| >= 1 {
        JoinSnoc(q, "");
        assert Join(p) == Join(q) + " ";
      }
    }
  }

  /**
   `s.split(" ")` in Java: a string without a space comes back whole as the
   only token; otherwise the string is cut at every space (so leading and
   inner empty tokens are kept) and the empty tokens at the end are dropped.
   */
  function Split(s: string): (tokens: seq<string>)
    ensures ' ' !in s ==> tokens == [s]
    ensures forall i :: 0 <= i < |tokens| ==> ' ' !in tokens[i]
    ensures ' ' in s ==> |tokens| == 0 || tokens[|tokens| - 1] != ""
    ensures Join(tokens) <= s
    ensures forall i :: |Join(tokens)| <= i < |s| ==> s[i] == ' '
  {
    if ' ' !in s then [s]
    else
      JoinDropTrailingEmpty(Pieces(s));
      DropTrailingEmpty(Pieces(s))
  }

  /** A word without spaces is one piece. */
  lemma {:induction false} PiecesOfWord(w: string)
    requires ' ' !in w
    ensures Pieces(w) == [w]
    decreases |w|
  {
    if w != [] {
      PiecesOfWord(w[1..]);
      assert w == [w[0]] + w[1..];
    }
  }

  /** A word followed by a space is cut off as the first piece. */
  lemma {:induction false} PiecesAfterWord(w: string, t: string)
    requires ' ' !in w
    ensures Pieces(w + " " + t) == [w] + Pieces(t)
    decreases |w|
  {
    var s := w + " " + t;
    if w == [] {
      assert s == " " + t;
      assert s[1..] == t;
    } else {
      assert s[1..] == w[1..] + " " + t;
      PiecesAfterWord(w[1..], t);
      assert w == [w[0]] + w[1..];
    }
  }

  /** Two words with one space between them split into exactly those two tokens. */
  lemma SplitTwoWords(a: string, b: string)
    requires ' ' !in a && ' ' !in b && b != ""
    ensures Split(a + " " + b) == [a, b]
  {
    var s := a + " " + b;
    assert s[|a|] == ' ';
    PiecesAfterWord(a, b);
    PiecesOfWord(b);
    assert Pieces(s) == [a, b];
  }

  /** Whatever follows the second word (after a space) never changes the first two tokens. */
  lemma SplitKeepsFirstTwoWords(a: string, b: string, rest: string)
    requires ' ' !in a && ' ' !in b && b != ""
    ensures |Split(a + " " + b + " " + rest)| >= 2
    ensures Split(a + " " + b + " " + rest)[0] == a
    ensures Split(a + " " + b + " " + rest)[1] == b
  {
    var s := a + " " + b + " " + rest;
    assert s[|a|] == ' ';
    assert s == a + " " + (b + " " + rest);
    PiecesAfterWord(a, b + " " + rest);
    PiecesAfterWord(b, rest);
    var p := Pieces(s);
    assert p[0] == a && p[1] == b;
    DropTrailingEmptyKeeps(p, 2);
  }

  /** Dropping empty pieces at the end keeps every piece up to a non-empty one. */
  lemma DropTrailingEmptyKeeps(p: seq<string>, k: nat)
    requires 1 <= k <= |p| && p[k - 1] != ""
    ensures k <= |DropTrailingEmpty(p)|
  {
  }

  // ---------------------------------------------------------------------
  // Integer.parseInt and Integer.toString
  // ---------------------------------------------------------------------

  predicate IsDigit(c: char) {
    '0' <= c <= '9'
  }

  predicate AllDigits(ds: string) {
    forall i :: 0 <= i < |ds| ==> IsDigit(ds[i])
  }

  function DigitValue(c: char): (d: nat)
    requires IsDigit(c)
    ensures d < 10
  {
    (c as int) - ('0' as int)
  }

  function DigitChar(d: nat): (c: char)
    requires d < 10
    ensures IsDigit(c) && DigitValue(c) == d
  {
    (('0' as int) + d) as char
  }

  /** The value of a string of decimal digits, most significant first. */
  function DecimalValue(ds: string): nat
    requires AllDigits(ds)
  {
    if |ds| == 0 then 0
    else DecimalValue(ds[..|ds| - 1]) * 10 + DigitValue(ds[|ds| - 1])
  }

  /**
   `Integer.parseInt(s)`: an optional `-` or `+`, then at least one decimal
   digit, and a value that fits in an `int`. Anything else is the
   `NumberFormatException` case, `None`.
   */
  function ParseInt(s: string): (r: Option<int>)
    ensures r.Some? ==> IsInt32(r.value)
    ensures r.Some? ==> |s| >= 1 && (IsDigit(s[0]) || (|s| >= 2 && (s[0] == '-' || s[0] == '+')))
    ensures r.Some? ==> forall i :: 1 <= i < |s| ==> IsDigit(s[i])
  {
    if |s| == 0 then None
    else
      var negative := s[0] == '-';
      var digits := if s[0] == '-' || s[0] == '+' then s[1..] else s;
      if |digits| == 0 || !AllDigits(digits) then None
      else
        var v: int := if negative then -(DecimalValue(digits) as int) else DecimalValue(digits);
        if IsInt32(v) then Some(v) else None
  }

  /**
   The value `Integer.parseInt` returns for every unsigned digit string,
   leading zeros included: its decimal value, whenever that fits in an `int`.
   */
  lemma ParseIntOfDigits(ds: string)
    requires |ds| >= 1 && AllDigits(ds)
    ensures ParseInt(ds) == (if DecimalValue(ds) <= INT_MAX then Some(DecimalValue(ds) as int) else None)
  {
    assert IsDigit(ds[0]);
  }

  /** A leading `+` changes nothing: the value is that of the digits. */
  lemma ParseIntOfPlusDigits(ds: string)
    requires |ds| >= 1 && AllDigits(ds)
    ensures ParseInt("+" + ds) == (if DecimalValue(ds) <= INT_MAX then Some(DecimalValue(ds) as int) else None)
  {
    var s := "+" + ds;
    assert s[0] == '+' && s[1..] == ds;
  }

  /** A leading `-` negates the value of the digits, which must then reach no lower than the `int` minimum. */
  lemma ParseIntOfMinusDigits(ds: string)
    requires |ds| >= 1 && AllDigits(ds)
    ensures ParseInt("-" + ds) == (if -(DecimalValue(ds) as int) >= INT_MIN then Some(-(DecimalValue(ds) as int)) else None)
  {
    var s := "-" + ds;
    assert s[0] == '-' && s[1..] == ds;
  }

  /** A plus sign and leading zeros are accepted: `"+5"` reads as 5 and `"007"` as 7. */
  lemma SignAndLeadingZerosAccepted()
    ensures ParseInt("+5") == Some(5)
    ensures ParseInt("007") == Some(7)
  {
    var five := "5";
    assert DecimalValue(five) == 5;
    ParseIntOfPlusDigits(five);
    assert "+5" == "+" + five;
    var seven := "007";
    assert seven[..2][..1] == "0" && seven[..1][..0] == "";
    assert DecimalValue(seven) == 7;
    ParseIntOfDigits(seven);
  }

  /** `Integer.toString` of a non-negative value: its decimal digits without leading zeros. */
  function NatToString(n: nat): (s: string)
    ensures |s| >= 1 && AllDigits(s)
    ensures DecimalValue(s) == n
    ensures s[0] != '0' || s == "0"
    decreases n
  {
    if n < 10 then [DigitChar(n)]
    else
      var s := NatToString(n / 10) + [DigitChar(n % 10)];
      assert s[..|s| - 1] == NatToString(n / 10);
      s
  }

  /** `Integer.toString(n)`: a minus sign for a negative value, then the digits of its magnitude. */
  function IntToString(n: int): (s: string)
    ensures |s| >= 1 && ' ' !in s
  {
    if n < 0 then "-" + NatToString(-n) else NatToString(n)
  }

  /** Reading back what `Integer.toString` wrote gives the same `int`. */
  lemma ParseIntToString(n: int)
    requires IsInt32(n)
    ensures ParseInt(IntToString(n)) == Some(n)
  {
    var s := IntToString(n);
    if n < 0 {
      assert s[1..] == NatToString(-n);
    } else {
      assert IsDigit(s[0]);
    }
  }
}
