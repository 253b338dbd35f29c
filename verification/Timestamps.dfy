/** RFC 3339 timestamps with trimmed nanoseconds, as the usage log stores them, and
    how their text order relates to time (internal/usage/usage.go). */
module Timestamps {
  import opened Usage

  predicate IsDigits(f: string) {
    forall i :: 0 <= i < |f| ==> '0' <= f[i] <= '9'
  }

  function Pow10(w: nat): (p: nat)
    ensures p > 0
  {
    if w == 0 then 1 else 10 * Pow10(w - 1)
  }

  function Digit(c: char): (d: nat)
    requires '0' <= c <= '9'
    ensures d <= 9
  {
    c as nat - '0' as nat
  }

  /** The fraction's digits, padded to w places, as a number (nanoseconds for w = 9). */
  function Value(f: string, w: nat): nat
    requires IsDigits(f) && |f| <= w
  {
    if w == 0 then 0
    else if f == "" then 0
    else Digit(f[0]) * Pow10(w - 1) + Value(f[1..], w - 1)
  }

  /** The stored text: date and time to the second, the fraction without trailing
      zeros and without its point when it is empty, and the zone. */
  function Stamp(second: string, fraction: string): string {
    second + (if fraction == "" then "" else "." + fraction) + "Z"
  }

  lemma {:induction false} ValueBound(f: string, w: nat)
    requires IsDigits(f) && |f| <= w
    ensures Value(f, w) < Pow10(w)
  {
    if w > 0 && f != "" {
      ValueBound(f[1..], w - 1);
      TopDigit(Digit(f[0]), Pow10(w - 1), Value(f[1..], w - 1));
    }
  }

  lemma TopDigit(d: nat, p: nat, x: nat)
    requires d <= 9 && x < p
    ensures d * p + x < 10 * p
  {
    assert d * p <= 9 * p;
  }

  lemma {:induction false} CommonPrefix(s: string, x: string, y: string)
    ensures TextLe(s + x, s + y) <==> TextLe(x, y)
  {
    if s == "" {
      assert s + x == x && s + y == y;
    } else {
      assert (s + x)[1..] == s[1..] + x && (s + y)[1..] == s[1..] + y;
      CommonPrefix(s[1..], x, y);
    }
  }

  lemma {:induction false} FractionOrder(f: string, g: string, w: nat)
    requires IsDigits(f) && IsDigits(g) && |f| <= w && |g| <= w && Value(f, w) < Value(g, w)
    ensures TextLe(f + "Z", g + "Z") <==> !(f <= g)
    decreases w
  {
    if f == "" {
      assert (f + "Z")[0] == 'Z' && (g + "Z")[0] == g[0];
    } else {
      var d, e := Digit(f[0]), Digit(g[0]);
      ValueBound(g[1..], w - 1);
      LeadingDigit(d, e, Value(f[1..], w - 1), Value(g[1..], w - 1), Pow10(w - 1));
      assert (f + "Z")[1..] == f[1..] + "Z" && (g + "Z")[1..] == g[1..] + "Z";
      if d == e {
        FractionOrder(f[1..], g[1..], w - 1);
        assert f <= g <==> f[1..] <= g[1..];
      }
    }
  }

  lemma LeadingDigit(d: nat, e: nat, x: nat, y: nat, p: nat)
    requires y < p && d * p + x < e * p + y
    ensures d < e || (d == e && x < y)
  {
    assert (e - d) * p > x - y;
    SignOfProduct(e - d, p, x - y);
  }

  lemma SignOfProduct(d: int, p: nat, z: int)
    requires p > 0 && d * p > z && z + p > 0
    ensures d >= 0
  {
    if d < 0 { Negative(d, p); }
  }

  lemma Negative(d: int, p: nat)
    requires d <= -1
    ensures d * p + p <= 0
  {
  }

  /** Within one second the text order is the time order except exactly where the
      earlier fraction is a prefix of the later one: half past sorts after half past
      and a hundredth, and the full second after every fraction of it. */
  lemma SameSecondOrderIff(second: string, f: string, g: string)
    requires IsDigits(f) && IsDigits(g) && |f| <= 9 && |g| <= 9 && Value(f, 9) < Value(g, 9)
    ensures TextLe(Stamp(second, f), Stamp(second, g)) <==> !(f <= g)
  {
    var x, y := (if f == "" then "" else "." + f) + "Z", "." + g + "Z";
    assert Stamp(second, f) == second + x && Stamp(second, g) == second + y;
    CommonPrefix(second, x, y);
    if f != "" {
      assert x == "." + (f + "Z") && y == "." + (g + "Z");
      CommonPrefix(".", f + "Z", g + "Z");
      FractionOrder(f, g, 9);
    }
  }

  /** Between different seconds the text order is that of the seconds. */
  lemma {:induction false} SecondsDecide(s: string, t: string, f: string, g: string)
    requires |s| == |t| && s != t && TextLe(s, t)
    ensures TextLe(Stamp(s, f), Stamp(t, g)) && !TextLe(Stamp(t, g), Stamp(s, f))
  {
    var x, y := Stamp("", f), Stamp("", g);
    assert Stamp(s, f) == s + x && Stamp(t, g) == t + y by { SplitStamp(s, f); SplitStamp(t, g); }
    FirstDifference(s, t, x, y);
  }

  lemma SplitStamp(s: string, f: string)
    ensures Stamp(s, f) == s + Stamp("", f)
  {
  }

  lemma {:induction false} FirstDifference(s: string, t: string, x: string, y: string)
    requires |s| == |t| && s != t && TextLe(s, t)
    ensures TextLe(s + x, t + y) && !TextLe(t + y, s + x)
  {
    assert s == [s[0]] + s[1..] && t == [t[0]] + t[1..];
    assert (s + x)[1..] == s[1..] + x && (t + y)[1..] == t[1..] + y;
    if s[0] == t[0] { FirstDifference(s[1..], t[1..], x, y); }
  }

  /** A whole second is stored without a fraction, and sorts after every later moment of
      that second. */
  lemma WholeSecondSortsLast(second: string, fraction: string)
    requires IsDigits(fraction) && fraction != ""
    ensures Stamp(second, "") == second + "Z" && Stamp(second, fraction) == second + "." + fraction + "Z"
    ensures TextLe(Stamp(second, fraction), second + "Z") && !TextLe(second + "Z", Stamp(second, fraction))
  {
    var x := "." + fraction + "Z";
    assert Stamp(second, fraction) == second + x;
    CommonPrefix(second, x, "Z");
    CommonPrefix(second, "Z", x);
  }
}
