/** Element paths as text: "[3][0]" for the first element of the fourth element. */
module IndexPaths {
  import opened Wrappers

  type IndexPath = seq<nat>

  function Digit(d: nat): char
    requires d < 10
  {
    '0' + d as char
  }

  /** `std::to_string` of a non-negative int. */
  function Decimal(n: nat): (s: string)
    ensures s != ""
  {
    if n < 10 then [Digit(n)] else Decimal(n / 10) + [Digit(n % 10)]
  }

  function Render(path: IndexPath): string
  {
    if path == [] then "" else "[" + Decimal(path[0]) + "]" + Render(path[1..])
  }

  lemma {:induction false} RenderSnoc(path: IndexPath, i: nat)
    ensures Render(path + [i]) == Render(path) + "[" + Decimal(i) + "]"
  {
    if path == [] {
      assert path + [i] == [i] && Render([i]) == "[" + Decimal(i) + "]" + Render([]);
    } else {
      assert (path + [i])[1..] == path[1..] + [i];
      RenderSnoc(path[1..], i);
      assert Render(path + [i]) == "[" + Decimal(path[0]) + "]" + Render(path[1..] + [i]);
    }
  }

  // ----- reading a path back -----

  predicate IsDigit(c: char)
  {
    '0' <= c <= '9'
  }

  function Number(s: string): Option<nat>
  {
    if s == "" then None
    else
      var c := s[|s| - 1];
      if !IsDigit(c) then None
      else
        var d := (c - '0') as nat;
        if |s| == 1 then Some(d)
        else match Number(s[..|s| - 1])
          case None => None
          case Some(n) => Some(10 * n + d)
  }

  /** Position of the first closing bracket, or the length of the text. */
  function CloseAt(s: string): (k: nat)
    ensures k <= |s| && (k < |s| ==> s[k] == ']')
  {
    if s == "" then 0 else if s[0] == ']' then 0 else 1 + CloseAt(s[1..])
  }

  function Decode(s: string): Option<IndexPath>
    decreases |s|
  {
    if s == "" then Some([])
    else if s[0] != '[' then None
    else
      var k := CloseAt(s[1..]);
      if k == |s| - 1 then None
      else match (Number(s[1..k + 1]), Decode(s[k + 2..]))
        case (Some(n), Some(rest)) => Some([n] + rest)
        case _ => None
  }

  lemma {:induction false} DecimalRoundTrip(n: nat)
    ensures Number(Decimal(n)) == Some(n)
    ensures forall i :: 0 <= i < |Decimal(n)| ==> IsDigit(Decimal(n)[i])
    ensures Decimal(n)[0] == '0' ==> n == 0 && |Decimal(n)| == 1
  {
    if n >= 10 {
      DecimalRoundTrip(n / 10);
      var s := Decimal(n);
      assert s[..|s| - 1] == Decimal(n / 10) && s[|s| - 1] == Digit(n % 10);
    }
  }

  lemma {:induction false} CloseAfterDigits(digits: string, rest: string)
    requires forall i :: 0 <= i < |digits| ==> IsDigit(digits[i])
    ensures CloseAt(digits + "]" + rest) == |digits|
  {
    var s := digits + "]" + rest;
    if digits != "" {
      assert s[1..] == digits[1..] + "]" + rest;
      CloseAfterDigits(digits[1..], rest);
    }
  }

  lemma DecodeStep(digits: string, rest: string)
    requires forall i :: 0 <= i < |digits| ==> IsDigit(digits[i])
    requires Number(digits).Some? && Decode(rest).Some?
    ensures Decode("[" + digits + "]" + rest) == Some([Number(digits).value] + Decode(rest).value)
  {
    var s, k := "[" + digits + "]" + rest, |digits|;
    assert s[1..] == digits + "]" + rest;
    CloseAfterDigits(digits, rest);
    assert s[1..k + 1] == digits;
    assert s[k + 2..] == rest;
  }

  /** Printing an index path and reading it back is the identity. */
  lemma {:induction false} PathRoundTrip(path: IndexPath)
    ensures Decode(Render(path)) == Some(path)
  {
    if path != [] {
      DecimalRoundTrip(path[0]);
      PathRoundTrip(path[1..]);
      DecodeStep(Decimal(path[0]), Render(path[1..]));
      assert path == [path[0]] + path[1..];
    }
  }

  /** Under one node path, different index paths print differently. */
  lemma PathsDistinct(root: string, p: IndexPath, q: IndexPath)
    requires root + Render(p) == root + Render(q)
    ensures p == q
  {
    assert Render(p) == (root + Render(p))[|root|..];
    assert Render(q) == (root + Render(q))[|root|..];
    PathRoundTrip(p);
    PathRoundTrip(q);
  }
}
