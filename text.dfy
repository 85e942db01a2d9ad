/** The textual form `operator<<` writes for a vector: "[ ", then every
    element in decimal followed by one space, then "]". A reader for that
    form shows that the rendering loses nothing. */
module Text {

  datatype Option<T> = None | Some(value: T)

  predicate IsDigit(c: char)
  {
    '0' <= c <= '9'
  }

  predicate AllDigits(s: string)
  {
    forall k :: 0 <= k < |s| ==> IsDigit(s[k])
  }

  /** Decimal digits of n, most significant first, without leading zeros. */
  function NatToString(n: nat): (r: string)
    ensures |r| > 0 && AllDigits(r)
    decreases n
  {
    var d := (('0' as int) + n % 10) as char;
    if n < 10 then [d] else NatToString(n / 10) + [d]
  }

  /** How a stream writes an int: a '-' before the magnitude when negative. */
  function IntToString(x: int): (r: string)
    ensures |r| > 0 && ' ' !in r
  {
    if x < 0 then "-" + NatToString(-x) else NatToString(x)
  }

  /** What the stream receives for one element: its text and one space. */
  function Token(x: int): (r: string)
    ensures |r| > 1 && r[|r| - 1] == ' ' && ' ' !in r[..|r| - 1]
  {
    IntToString(x) + " "
  }

  /** Everything between "[ " and "]": each element's token, in order. */
  function Body(xs: seq<int>): (r: string)
    ensures |r| >= 2 * |xs|
    ensures |xs| > 0 ==> r[|r| - 1] == ' '
  {
    if |xs| == 0 then "" else Token(xs[0]) + Body(xs[1..])
  }

  function Render(xs: seq<int>): (r: string)
    ensures |r| >= 3 && r[..2] == "[ " && r[|r| - 1] == ']'
  {
    "[ " + Body(xs) + "]"
  }

  // ---------------------------------------------------------------------
  // Reading the text back

  function ParseNat(s: string): nat
    requires AllDigits(s)
  {
    if |s| == 0 then 0
    else ParseNat(s[..|s| - 1]) * 10 + ((s[|s| - 1] as int) - ('0' as int))
  }

  function ParseInt(t: string): Option<int>
  {
    if |t| > 1 && t[0] == '-' && AllDigits(t[1..]) then Some(-(ParseNat(t[1..]) as int))
    else if |t| > 0 && AllDigits(t) then Some(ParseNat(t))
    else None
  }

  /** Index of the first space in s, or |s| when there is none. */
  function SpaceAt(s: string): (k: nat)
    ensures k <= |s|
  {
    if |s| == 0 || s[0] == ' ' then 0 else 1 + SpaceAt(s[1..])
  }

  function ParseBody(b: string): Option<seq<int>>
    decreases |b|
  {
    if |b| == 0 then Some([])
    else
      var k := SpaceAt(b);
      if k == |b| then None
      else match (ParseInt(b[..k]), ParseBody(b[k + 1..]))
        case (Some(x), Some(rest)) => Some([x] + rest)
        case _ => None
  }

  function Parse(r: string): Option<seq<int>>
  {
    if |r| >= 3 && r[..2] == "[ " && r[|r| - 1] == ']' then ParseBody(r[2..|r| - 1])
    else None
  }

  // ---------------------------------------------------------------------
  // Laws

  lemma {:induction false} NatRoundTrip(n: nat)
    ensures ParseNat(NatToString(n)) == n
    decreases n
  {
    if n >= 10 {
      var s := NatToString(n);
      assert s[..|s| - 1] == NatToString(n / 10);
      NatRoundTrip(n / 10);
    }
  }

  lemma IntRoundTrip(x: int)
    ensures ParseInt(IntToString(x)) == Some(x)
  {
    var t := IntToString(x);
    if x < 0 {
      assert t[1..] == NatToString(-x);
      NatRoundTrip(-x);
    } else {
      NatRoundTrip(x);
    }
  }

  lemma {:induction false} SpaceAfterToken(t: string, rest: string)
    requires ' ' !in t
    ensures SpaceAt(t + " " + rest) == |t|
  {
    if |t| > 0 {
      assert (t + " " + rest)[1..] == t[1..] + " " + rest;
      SpaceAfterToken(t[1..], rest);
    }
  }

  lemma {:induction false} BodyRoundTrip(xs: seq<int>)
    ensures ParseBody(Body(xs)) == Some(xs)
  {
    if |xs| > 0 {
      var t, rest := IntToString(xs[0]), Body(xs[1..]);
      var b := Body(xs);
      assert b == t + " " + rest;
      SpaceAfterToken(t, rest);
      assert b[..|t|] == t;
      assert b[|t| + 1..] == rest;
      IntRoundTrip(xs[0]);
      BodyRoundTrip(xs[1..]);
      assert [xs[0]] + xs[1..] == xs;
    }
  }

  /** The rendered text determines the vector: reading it back gives the elements. */
  lemma RenderRoundTrip(xs: seq<int>)
    ensures Parse(Render(xs)) == Some(xs)
  {
    var r := Render(xs);
    assert r[2..|r| - 1] == Body(xs);
    BodyRoundTrip(xs);
  }

  /** Appending an element appends its token: the step of the rendering loop. */
  lemma {:induction false} BodySnoc(xs: seq<int>, x: int)
    ensures Body(xs + [x]) == Body(xs) + Token(x)
  {
    if |xs| > 0 {
      assert (xs + [x])[1..] == xs[1..] + [x];
      BodySnoc(xs[1..], x);
      Associative(Token(xs[0]), Body(xs[1..]), Token(x));
    } else {
      assert xs + [x] == [x];
    }
  }

  /** Proof-step helper: concatenation regrouped, so the solver sees the
      regrouping it needs without searching for it. */
  lemma Associative(a: string, b: string, c: string)
    ensures (a + b) + c == a + (b + c)
  {
  }

  /** The rendering loop's step: writing the next element's token after the
      text written so far. */
  lemma RenderStep(s: string, xs: seq<int>, x: int)
    requires s == "[ " + Body(xs)
    ensures s + Token(x) == "[ " + Body(xs + [x])
  {
    BodySnoc(xs, x);
    Associative("[ ", Body(xs), Token(x));
  }

  /** Example: {1, 2, 3} renders as "[ 1 2 3 ]". */
  lemma RenderExample()
    ensures Render([1, 2, 3]) == "[ 1 2 3 ]"
  {
    assert IntToString(1) == "1" && IntToString(2) == "2" && IntToString(3) == "3";
  }
}
