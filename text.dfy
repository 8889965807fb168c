/**
  The text operations the dispatcher's replies are built from. Rust strings
  are UTF-8 byte sequences, so text here is `seq<byte>`: `==` on `String` is
  byte equality, `starts_with` a prefix test, `format!` concatenation, and
  `Vec<String>::join` and `Vec::retain` the functions Join and RemoveAll.
 */
module Text {

  import opened LittleEndian

  /** A text fragment of the source made only of 7-bit characters. */
  predicate IsAscii(s: string) {
    forall i | 0 <= i < |s| :: s[i] as int < 0x80
  }

  /** The UTF-8 bytes of a 7-bit string literal: one byte per character. */
  function Ascii(s: string): (r: seq<byte>)
    requires IsAscii(s)
    ensures |r| == |s|
    ensures forall i | 0 <= i < |s| :: r[i] == s[i] as int
  {
    seq(|s|, i requires 0 <= i < |s| => s[i] as int)
  }

  /** Two 7-bit texts put together are 7-bit (used for literals too long to check in one piece). */
  lemma AsciiConcat(a: string, b: string)
    requires IsAscii(a) && IsAscii(b)
    ensures IsAscii(a + b)
  {
  }

  /** `s.starts_with(p)`: `s` is `p` followed by something. */
  predicate StartsWith(s: seq<byte>, p: seq<byte>)
    ensures StartsWith(s, p) <==> exists t :: s == p + t
  {
    && |p| <= |s|
    && (assert s == s[..|p|] + s[|p|..]; s[..|p|] == p)
  }

  // ---------------------------------------------------------------------
  // Decimal formatting of a count (`{}` applied to a `usize`)
  // ---------------------------------------------------------------------

  const DIGIT_ZERO: byte := '0' as int

  predicate IsDigit(b: byte) {
    DIGIT_ZERO <= b < DIGIT_ZERO + 10
  }

  /** The shortest decimal numeral of `n`, most significant digit first. */
  function Decimal(n: nat): (r: seq<byte>)
    ensures 0 < |r|
    ensures forall i | 0 <= i < |r| :: IsDigit(r[i])
    ensures |r| > 1 ==> r[0] != DIGIT_ZERO
    decreases n
  {
    if n < 10 then [DIGIT_ZERO + n] else Decimal(n / 10) + [DIGIT_ZERO + n % 10]
  }

  /** The value a numeral of decimal digits denotes. */
  function DecimalValue(s: seq<byte>): nat
    requires forall i | 0 <= i < |s| :: IsDigit(s[i])
  {
    if s == [] then 0
    else
      var last := s[|s| - 1];
      assert IsDigit(last);
      10 * DecimalValue(s[..|s| - 1]) + (last - DIGIT_ZERO)
  }

  /** Formatting a count and reading the digits back gives the count. */
  lemma {:induction false} DecimalValueOfDecimal(n: nat)
    ensures DecimalValue(Decimal(n)) == n
    decreases n
  {
    var d := Decimal(n);
    if n >= 10 {
      DecimalValueOfDecimal(n / 10);
      assert d[..|d| - 1] == Decimal(n / 10);
    }
  }

  /** Different counts are formatted differently. */
  lemma DecimalInjective(m: nat, n: nat)
    requires Decimal(m) == Decimal(n)
    ensures m == n
  {
    DecimalValueOfDecimal(m);
    DecimalValueOfDecimal(n);
  }

  /** `s` is a numeral of decimal digits that denotes `count`. */
  predicate Denotes(s: seq<byte>, count: nat) {
    && (forall i | 0 <= i < |s| :: IsDigit(s[i]))
    && DecimalValue(s) == count
  }

  /** A count formatted between two texts can be read back from where it was put. */
  lemma DecimalBetween(a: seq<byte>, count: nat, b: seq<byte>)
    ensures var n := |Decimal(count)|;
      && |a| + n <= |a + Decimal(count) + b|
      && Denotes((a + Decimal(count) + b)[|a|..|a| + n], count)
  {
    var d := Decimal(count);
    assert (a + d + b)[|a|..|a| + |d|] == d;
    DecimalValueOfDecimal(count);
  }

  // ---------------------------------------------------------------------
  // Vec<String>::join
  // ---------------------------------------------------------------------

  /** Total number of bytes in the elements of `xs`. */
  function TotalLength(xs: seq<seq<byte>>): nat
  {
    if xs == [] then 0 else TotalLength(xs[..|xs| - 1]) + |xs[|xs| - 1]|
  }

  /**
    `xs.join(sep)`: the elements in order with `sep` between neighbours, so
    the text is as long as all elements plus one separator per neighbouring pair.
   */
  function Join(xs: seq<seq<byte>>, sep: seq<byte>): (r: seq<byte>)
    ensures xs == [] ==> r == []
    ensures xs != [] ==> |r| == TotalLength(xs) + (|xs| - 1) * |sep|
  {
    if xs == [] then []
    else if |xs| == 1 then
      assert xs[..0] == [];
      xs[0]
    else
      var n := |xs|;
      assert (n - 2) * |sep| + |sep| == (n - 1) * |sep|;
      Join(xs[..n - 1], sep) + sep + xs[n - 1]
  }

  /** Where the `i`-th element of `xs` starts in `Join(xs, sep)`. */
  function JoinOffset(xs: seq<seq<byte>>, sep: seq<byte>, i: nat): nat
    requires i <= |xs|
  {
    TotalLength(xs[..i]) + i * |sep|
  }

  /** Taking one more element adds its length to the total. */
  lemma TotalLengthStep(xs: seq<seq<byte>>, i: nat)
    requires i < |xs|
    ensures TotalLength(xs[..i + 1]) == TotalLength(xs[..i]) + |xs[i]|
  {
    assert xs[..i + 1][..i] == xs[..i];
  }

  /** The next element starts one element and one separator further on. */
  lemma JoinOffsetStep(xs: seq<seq<byte>>, sep: seq<byte>, i: nat)
    requires i < |xs|
    ensures JoinOffset(xs, sep, i + 1) == JoinOffset(xs, sep, i) + |xs[i]| + |sep|
  {
    TotalLengthStep(xs, i);
    assert (i + 1) * |sep| == i * |sep| + |sep|;
  }

  /** Offsets depend only on the elements before them. */
  lemma JoinOffsetPrefix(xs: seq<seq<byte>>, ys: seq<seq<byte>>, sep: seq<byte>, i: nat)
    requires i <= |xs| && i <= |ys| && xs[..i] == ys[..i]
    ensures JoinOffset(xs, sep, i) == JoinOffset(ys, sep, i)
  {
  }

  /** The last element ends where the joined text ends. */
  lemma JoinOffsetLast(xs: seq<seq<byte>>, sep: seq<byte>)
    requires xs != []
    ensures JoinOffset(xs, sep, |xs| - 1) + |xs[|xs| - 1]| == |Join(xs, sep)|
  {
    TotalLengthStep(xs, |xs| - 1);
    assert xs[..|xs|] == xs;
  }

  /**
    The joined text is exactly the elements in order with one separator
    between neighbours: element `i` sits at JoinOffset(i), and `sep` fills the
    gap up to the next element.
   */
  lemma {:induction false} JoinSegments(xs: seq<seq<byte>>, sep: seq<byte>, i: nat)
    requires i < |xs|
    ensures JoinOffset(xs, sep, i) + |xs[i]| <= |Join(xs, sep)|
    ensures Join(xs, sep)[JoinOffset(xs, sep, i)..JoinOffset(xs, sep, i) + |xs[i]|] == xs[i]
    ensures i < |xs| - 1 ==>
      JoinOffset(xs, sep, i + 1) == JoinOffset(xs, sep, i) + |xs[i]| + |sep| <= |Join(xs, sep)|
    ensures i < |xs| - 1 ==>
      Join(xs, sep)[JoinOffset(xs, sep, i) + |xs[i]|..JoinOffset(xs, sep, i + 1)] == sep
    decreases |xs|
  {
    var n := |xs|;
    var j := Join(xs, sep);
    var o := JoinOffset(xs, sep, i);
    if n == 1 {
      assert xs[..0] == [];
    } else {
      var init := xs[..n - 1];
      var ji := Join(init, sep);
      assert j == ji + sep + xs[n - 1];
      JoinOffsetLast(init, sep);
      if i < n - 1 {
        JoinSegments(init, sep, i);
        JoinOffsetPrefix(xs, init, sep, i);
        JoinOffsetStep(xs, sep, i);
        assert j[o..o + |xs[i]|] == ji[o..o + |xs[i]|];
        if i < n - 2 {
          JoinOffsetPrefix(xs, init, sep, i + 1);
          assert j[o + |xs[i]|..JoinOffset(xs, sep, i + 1)] == ji[o + |xs[i]|..JoinOffset(xs, sep, i + 1)];
        } else {
          assert o + |xs[i]| == |ji|;
        }
      } else {
        JoinOffsetStep(xs, sep, n - 2);
        JoinOffsetPrefix(xs, init, sep, n - 2);
        assert o == |ji| + |sep|;
      }
    }
  }

  /** `t` occurs somewhere in `s`. */
  predicate Mentions(s: seq<byte>, t: seq<byte>) {
    exists k | 0 <= k <= |s| :: t <= s[k..]
  }

  /** Every element of a list occurs in its joined text. */
  lemma JoinMentionsAll(xs: seq<seq<byte>>, sep: seq<byte>)
    ensures forall i | 0 <= i < |xs| :: Mentions(Join(xs, sep), xs[i])
  {
    forall i | 0 <= i < |xs| ensures Mentions(Join(xs, sep), xs[i]) {
      JoinSegments(xs, sep, i);
      var j, o := Join(xs, sep), JoinOffset(xs, sep, i);
      assert j[o..][..|xs[i]|] == j[o..o + |xs[i]|];
      assert xs[i] <= j[o..];
    }
  }

  /** Whatever occurs in `s` still occurs once text is put in front of it. */
  lemma MentionsAllAfter(a: seq<byte>, s: seq<byte>, ts: seq<seq<byte>>)
    requires forall i | 0 <= i < |ts| :: Mentions(s, ts[i])
    ensures forall i | 0 <= i < |ts| :: Mentions(a + s, ts[i])
  {
    forall i | 0 <= i < |ts| ensures Mentions(a + s, ts[i]) {
      var k :| 0 <= k <= |s| && ts[i] <= s[k..];
      assert (a + s)[|a| + k..] == s[k..];
    }
  }

  // ---------------------------------------------------------------------
  // Vec::retain(|x| *x != n) and Vec::contains
  // ---------------------------------------------------------------------

  /** The elements of `s` other than `n`, in their original order. */
  function RemoveAll(s: seq<seq<byte>>, n: seq<byte>): (r: seq<seq<byte>>)
    ensures |r| <= |s|
    ensures forall x :: x in r <==> x in s && x != n
  {
    if s == [] then []
    else if s[|s| - 1] == n then RemoveAll(s[..|s| - 1], n)
    else RemoveAll(s[..|s| - 1], n) + [s[|s| - 1]]
  }

  /** Removal works piecewise on a concatenation, so the kept elements keep their relative order. */
  lemma {:induction false} RemoveAllConcat(a: seq<seq<byte>>, b: seq<seq<byte>>, n: seq<byte>)
    ensures RemoveAll(a + b, n) == RemoveAll(a, n) + RemoveAll(b, n)
    decreases |b|
  {
    if b == [] {
      assert a + b == a;
    } else {
      var b' := b[..|b| - 1];
      assert (a + b)[..|a + b| - 1] == a + b';
      RemoveAllConcat(a, b', n);
    }
  }

  /** Removing an absent element changes nothing. */
  lemma {:induction false} RemoveAllAbsent(s: seq<seq<byte>>, n: seq<byte>)
    requires n !in s
    ensures RemoveAll(s, n) == s
  {
    if s != [] {
      RemoveAllAbsent(s[..|s| - 1], n);
      assert s[..|s| - 1] + [s[|s| - 1]] == s;
    }
  }

  predicate NoDuplicates(s: seq<seq<byte>>) {
    forall i, j | 0 <= i < j < |s| :: s[i] != s[j]
  }

  /** Removal keeps a duplicate-free list duplicate-free, and removes exactly one element when `n` is present. */
  lemma {:induction false} RemoveAllNoDuplicates(s: seq<seq<byte>>, n: seq<byte>)
    requires NoDuplicates(s)
    ensures NoDuplicates(RemoveAll(s, n))
    ensures |RemoveAll(s, n)| == if n in s then |s| - 1 else |s|
  {
    if s != [] {
      var s' := s[..|s| - 1];
      var last := s[|s| - 1];
      assert NoDuplicates(s');
      RemoveAllNoDuplicates(s', n);
      assert last !in s' by {
        forall i | 0 <= i < |s'| ensures s'[i] != last { assert s[i] == s'[i]; }
      }
      assert s == s' + [last];
      if last != n {
        var r := RemoveAll(s', n);
        var t := r + [last];
        assert last !in r;
        forall i, j | 0 <= i < j < |t| ensures t[i] != t[j] {
          if j == |r| { assert t[i] == r[i]; assert r[i] in r; }
        }
      }
    }
  }

}
