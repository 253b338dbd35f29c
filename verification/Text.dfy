/** The handful of Go `strings` and `unicode` operations the program relies on,
    over sequences of runes.  A Dafny `char` is a Unicode scalar value, which is
    exactly what a Go rune obtained by decoding a string is. */
module Text {

  /** unicode.IsSpace: the White_Space property. */
  predicate IsSpace(c: char) {
    || '\t' <= c <= '\r'
    || c == ' '
    || c == '\U{0085}'
    || c == '\U{00A0}'
    || c == '\U{1680}'
    || '\U{2000}' <= c <= '\U{200A}'
    || c == '\U{2028}'
    || c == '\U{2029}'
    || c == '\U{202F}'
    || c == '\U{205F}'
    || c == '\U{3000}'
  }

  predicate AllSpace(s: string) {
    forall i :: 0 <= i < |s| ==> IsSpace(s[i])
  }

  /** How many leading white-space runes s has. */
  function Lead(s: string): (n: nat)
    ensures n <= |s|
    ensures forall i :: 0 <= i < n ==> IsSpace(s[i])
    ensures n < |s| ==> !IsSpace(s[n])
  {
    if s == [] || !IsSpace(s[0]) then 0 else 1 + Lead(s[1..])
  }

  /** The length of s without its trailing white space. */
  function Trail(s: string): (n: nat)
    ensures n <= |s|
    ensures forall i :: n <= i < |s| ==> IsSpace(s[i])
    ensures n > 0 ==> !IsSpace(s[n - 1])
  {
    if s == [] || !IsSpace(s[|s| - 1]) then |s| else Trail(s[..|s| - 1])
  }

  /** strings.TrimSpace. */
  function TrimSpace(s: string): string {
    if Lead(s) >= Trail(s) then "" else s[Lead(s)..Trail(s)]
  }

  lemma TrimKeeps(s: string)
    ensures TrimSpace(s) == "" <==> AllSpace(s)
    ensures TrimSpace(s) != "" ==> Lead(s) < Trail(s) && TrimSpace(s) == s[Lead(s)..Trail(s)]
    ensures forall i :: 0 <= i < |s| && !IsSpace(s[i]) ==> Lead(s) <= i < Trail(s)
  {
  }

  /** The trimmed text, found without looking at either end: white space, then the
      text, then white space, the text itself empty or visible at both ends. */
  lemma TrimIff(before: string, t: string, after: string)
    requires AllSpace(before) && AllSpace(after)
    requires t == "" || (!IsSpace(t[0]) && !IsSpace(t[|t| - 1]))
    ensures TrimSpace(before + t + after) == t
  {
    hide IsSpace;
    var s := before + t + after;
    TrimKeeps(s);
    if t != "" {
      assert s[|before|] == t[0] && s[|before| + |t| - 1] == t[|t| - 1];
      assert Lead(s) == |before| && Trail(s) == |before| + |t|;
      assert s[|before|..|before| + |t|] == t;
    }
  }

  lemma SliceOfSlice<T>(s: seq<T>, from: nat, to: nat, a: nat, b: nat)
    requires from <= to <= |s| && a <= b <= to - from
    ensures s[from..to][a..b] == s[from + a..from + b]
  {
    var l, r := s[from..to][a..b], s[from + a..from + b];
    assert |l| == |r| && forall i :: 0 <= i < |l| ==> l[i] == r[i];
  }

  /** What trimming a stretch of a text leaves is a stretch of the text, and
      everything visible in the stretch is still in it. */
  lemma TrimStretch(text: string, a: nat, b: nat) returns (from: nat, to: nat)
    requires a <= b <= |text|
    ensures a <= from <= to <= b && TrimSpace(text[a..b]) == text[from..to]
    ensures forall p :: a <= p < b && !IsSpace(text[p]) ==> from <= p < to
  {
    hide IsSpace;
    var s := text[a..b];
    TrimKeeps(s);
    if TrimSpace(s) == "" {
      from, to := a, a;
    } else {
      from, to := a + Lead(s), a + Trail(s);
      SliceOfSlice(text, a, b, Lead(s), Trail(s));
    }
    forall p | a <= p < b && !IsSpace(text[p]) ensures from <= p < to {
      assert s[p - a] == text[p];
    }
  }

  /** sep occurs in s at i. */
  predicate OccursAt<T(==)>(s: seq<T>, sep: seq<T>, i: int) {
    0 <= i && i + |sep| <= |s| && s[i..i + |sep|] == sep
  }

  /** strings.LastIndex, scanning down from candidate position i. */
  function LastIndexFrom<T(==)>(s: seq<T>, sep: seq<T>, i: int): (r: int)
    requires i >= -1
    ensures -1 <= r <= i
    ensures r >= 0 ==> OccursAt(s, sep, r)
    ensures forall j :: r < j <= i ==> !OccursAt(s, sep, j)
    decreases i + 1
  {
    if i < 0 then -1
    else if OccursAt(s, sep, i) then i
    else LastIndexFrom(s, sep, i - 1)
  }
}
