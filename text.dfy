/** Bytes, optional values, and the two pieces of Python string behaviour the
    program relies on: `str(n)` for a non-negative integer, and `s.split(d)`
    for a one-element separator. */
module Text {

  newtype byte = x: int | 0 <= x < 256

  datatype Option<T> = None | Some(value: T)

  /** The byte of the ASCII character '|', the field delimiter of every header. */
  const Bar: byte := 124

  function Min(a: int, b: int): int { if a <= b then a else b }

  /** Python's s[i:j] for non-negative bounds: both are clamped to the
      length, and a start at or past the stop gives the empty slice. */
  function Slice<T>(s: seq<T>, i: nat, j: nat): (r: seq<T>)
    ensures i <= j <= |s| ==> r == s[i..j]
    ensures j <= i ==> r == []
    ensures |s| <= i ==> r == []
    ensures i <= |s| <= j ==> r == s[i..]
  {
    var lo := Min(i, |s|);
    var hi := Min(j, |s|);
    if lo < hi then s[lo..hi] else []
  }

  // ---------------------------------------------------------------------------
  // Decimal numerals: Python's str(n) for n >= 0
  // ---------------------------------------------------------------------------

  predicate IsDigit(c: char) { '0' <= c <= '9' }

  predicate AllDigits(s: string) { forall i :: 0 <= i < |s| ==> IsDigit(s[i]) }

  function DigitChar(d: nat): (c: char)
    requires d < 10
    ensures IsDigit(c) && c as int - '0' as int == d
  {
    (48 + d) as char
  }

  /** The decimal numeral of n without leading zeros, "0" for zero. */
  function Decimal(n: nat): (s: string)
    ensures AllDigits(s)
    ensures 1 <= |s|
    ensures |s| == 1 <==> n < 10
    ensures s[0] == '0' ==> n == 0
    decreases n
  {
    if n < 10 then [DigitChar(n)] else Decimal(n / 10) + [DigitChar(n % 10)]
  }

  /** The value of a numeral, read most significant digit first. */
  function ParseDecimal(s: string): nat
    requires AllDigits(s)
    decreases |s|
  {
    if |s| == 0 then 0
    else 10 * ParseDecimal(s[..|s| - 1]) + (s[|s| - 1] as int - '0' as int)
  }

  /** Reading a numeral back gives the number it was written from. */
  lemma {:induction false} ParseDecimalInverse(n: nat)
    ensures ParseDecimal(Decimal(n)) == n
    decreases n
  {
    if n >= 10 {
      var s := Decimal(n);
      assert s[..|s| - 1] == Decimal(n / 10);
      ParseDecimalInverse(n / 10);
    }
  }

  /** Two numbers have the same numeral only if they are equal. */
  lemma DecimalInjective(m: nat, n: nat)
    requires Decimal(m) == Decimal(n)
    ensures m == n
  {
    ParseDecimalInverse(m);
    ParseDecimalInverse(n);
  }

  /** The numeral is "0" exactly for zero: the test `field == "0"` is a test for value zero. */
  lemma DecimalIsZero(n: nat)
    ensures Decimal(n) == "0" <==> n == 0
  {
  }

  /** A larger number never has a shorter numeral. */
  lemma {:induction false} DecimalLengthMonotone(m: nat, n: nat)
    requires m <= n
    ensures |Decimal(m)| <= |Decimal(n)|
    decreases n
  {
    if m >= 10 {
      DecimalLengthMonotone(m / 10, n / 10);
    }
  }

  // ---------------------------------------------------------------------------
  // Splitting on a one-element delimiter: Python's s.split(d)
  // ---------------------------------------------------------------------------

  /** The pieces of s between occurrences of d, in order. Like Python's
      `split`, an empty s gives one empty piece and adjacent delimiters
      give empty pieces. */
  function Split<T(==)>(s: seq<T>, d: T): (r: seq<seq<T>>)
    ensures 1 <= |r|
    ensures forall i :: 0 <= i < |r| ==> d !in r[i]
    decreases |s|
  {
    if |s| == 0 then [[]]
    else
      var rest := Split(s[1..], d);
      if s[0] == d then [[]] + rest else [[s[0]] + rest[0]] + rest[1..]
  }

  /** The pieces put back together with the delimiter between them. */
  function Join<T>(parts: seq<seq<T>>, d: T): seq<T>
    decreases |parts|
  {
    if |parts| == 0 then []
    else if |parts| == 1 then parts[0]
    else parts[0] + [d] + Join(parts[1..], d)
  }

  /** Splitting loses nothing: joining the pieces gives s back. */
  lemma {:induction false} JoinSplit<T>(s: seq<T>, d: T)
    ensures Join(Split(s, d), d) == s
    decreases |s|
  {
    if |s| > 0 {
      var rest := Split(s[1..], d);
      JoinSplit(s[1..], d);
      if s[0] != d {
        if |rest| > 1 {
          assert Join(rest, d) == rest[0] + [d] + Join(rest[1..], d);
          assert Split(s, d)[1..] == rest[1..];
        }
      }
    }
  }

  /** A piece free of d is split off at the first d that follows it. */
  lemma {:induction false} SplitAfter<T>(a: seq<T>, b: seq<T>, d: T)
    requires d !in a
    ensures Split(a + [d] + b, d) == [a] + Split(b, d)
    decreases |a|
  {
    if |a| == 0 {
      assert (a + [d] + b)[1..] == b;
    } else {
      assert (a + [d] + b)[1..] == a[1..] + [d] + b;
      SplitAfter(a[1..], b, d);
      assert [a[0]] + a[1..] == a;
    }
  }

  /** A sequence free of d is a single piece. */
  lemma {:induction false} SplitWhole<T>(a: seq<T>, d: T)
    requires d !in a
    ensures Split(a, d) == [a]
    decreases |a|
  {
    if |a| > 0 {
      SplitWhole(a[1..], d);
      assert [a[0]] + a[1..] == a;
    }
  }

  /** Pieces free of d are recovered by splitting their join. */
  lemma {:induction false} SplitJoin<T>(parts: seq<seq<T>>, d: T)
    requires 1 <= |parts|
    requires forall i :: 0 <= i < |parts| ==> d !in parts[i]
    ensures Split(Join(parts, d), d) == parts
    decreases |parts|
  {
    if |parts| == 1 {
      SplitWhole(parts[0], d);
    } else {
      SplitJoin(parts[1..], d);
      SplitAfter(parts[0], Join(parts[1..], d), d);
      assert [parts[0]] + parts[1..] == parts;
    }
  }

  /** Pieces joined, then d and more: the pieces come first, then the
      pieces of what follows. */
  lemma {:induction false} SplitJoinAppend<T>(parts: seq<seq<T>>, b: seq<T>, d: T)
    requires 1 <= |parts|
    requires forall i :: 0 <= i < |parts| ==> d !in parts[i]
    ensures Split(Join(parts, d) + [d] + b, d) == parts + Split(b, d)
    decreases |parts|
  {
    if |parts| == 1 {
      SplitAfter(parts[0], b, d);
    } else {
      var rest := Join(parts[1..], d) + [d] + b;
      JoinConsAppend(parts, b, d);
      SplitAfter(parts[0], rest, d);
      SplitJoinAppend(parts[1..], b, d);
      ConsAppend(parts, Split(b, d));
    }
  }

  lemma JoinConsAppend<T>(parts: seq<seq<T>>, b: seq<T>, d: T)
    requires 2 <= |parts|
    ensures Join(parts, d) + [d] + b == parts[0] + [d] + (Join(parts[1..], d) + [d] + b)
  {
  }

  lemma ConsAppend<T>(s: seq<T>, t: seq<T>)
    requires 1 <= |s|
    ensures [s[0]] + (s[1..] + t) == s + t
  {
    assert s == [s[0]] + s[1..];
  }

  /** Five pieces joined: each delimiter written out. */
  lemma JoinFive<T>(p0: seq<T>, p1: seq<T>, p2: seq<T>, p3: seq<T>, p4: seq<T>, d: T)
    ensures Join([p0, p1, p2, p3, p4], d) == p0 + [d] + p1 + [d] + p2 + [d] + p3 + [d] + p4
  {
    var parts := [p0, p1, p2, p3, p4];
    assert Join(parts[4..], d) == p4;
    assert Join(parts[3..], d) == p3 + [d] + p4;
    assert Join(parts[2..], d) == p2 + [d] + Join(parts[3..], d);
    assert Join(parts[1..], d) == p1 + [d] + Join(parts[2..], d);
  }

  /** Four delimited pieces and a tail, regrouped from the right. */
  lemma Regroup<T>(a: seq<T>, b: seq<T>, c: seq<T>, e: seq<T>, t: seq<T>, d: T)
    ensures a + [d] + b + [d] + c + [d] + e + [d] + t == a + [d] + (b + [d] + (c + [d] + (e + [d] + t)))
  {
  }

  /** A concatenation of three pieces sliced back into them. */
  lemma ThreeParts<T>(a: seq<T>, b: seq<T>, c: seq<T>)
    ensures var s := a + b + c;
            |s| == |a| + |b| + |c|
            && s[..|a|] == a && s[|a|..|a| + |b|] == b && s[|a| + |b|..] == c
  {
    var s := a + b + c;
    assert s[..|a|] == a;
    assert s[|a|..|a| + |b|] == b;
    assert s[|a| + |b|..] == c;
  }

  /** The first occurrence of d: what comes before it (free of d) and what
      comes after it, or None when s holds no d. */
  function SplitFirst<T(==)>(s: seq<T>, d: T): (r: Option<(seq<T>, seq<T>)>)
    ensures r.None? <==> d !in s
    decreases |s|
  {
    if |s| == 0 then None
    else if s[0] == d then Some(([], s[1..]))
    else match SplitFirst(s[1..], d)
      case None => None
      case Some((before, after)) => Some(([s[0]] + before, after))
  }

  /** What SplitFirst finds: a d-free part, the d, and the rest. */
  lemma {:induction false} SplitFirstParts<T>(s: seq<T>, d: T)
    requires d in s
    ensures SplitFirst(s, d).Some?
    ensures var (before, after) := SplitFirst(s, d).value;
            d !in before && s == before + [d] + after
    decreases |s|
  {
    if s[0] != d {
      assert d in s[1..];
      SplitFirstParts(s[1..], d);
      assert s == [s[0]] + s[1..];
    }
  }

  /** The first d after a d-free prefix is the one SplitFirst finds. */
  lemma {:induction false} SplitFirstAfter<T>(a: seq<T>, b: seq<T>, d: T)
    requires d !in a
    ensures SplitFirst(a + [d] + b, d) == Some((a, b))
    decreases |a|
  {
    if |a| == 0 {
      assert a + [d] + b == [d] + b;
    } else {
      assert (a + [d] + b)[1..] == a[1..] + [d] + b;
      SplitFirstAfter(a[1..], b, d);
      assert [a[0]] + a[1..] == a;
    }
  }

  // ---------------------------------------------------------------------------
  // Concatenation of a list of pieces: b"".join(pieces) and "".join(pieces)
  // ---------------------------------------------------------------------------

  function Flatten<T>(parts: seq<seq<T>>): seq<T>
    decreases |parts|
  {
    if |parts| == 0 then [] else parts[0] + Flatten(parts[1..])
  }

  lemma {:induction false} FlattenAppend<T>(a: seq<seq<T>>, b: seq<seq<T>>)
    ensures Flatten(a + b) == Flatten(a) + Flatten(b)
    decreases |a|
  {
    if |a| > 0 {
      assert (a + b)[1..] == a[1..] + b;
      FlattenAppend(a[1..], b);
      calc {
        Flatten(a + b);
        (a + b)[0] + Flatten((a + b)[1..]);
        a[0] + (Flatten(a[1..]) + Flatten(b));
        (a[0] + Flatten(a[1..])) + Flatten(b);
        Flatten(a) + Flatten(b);
      }
    } else {
      assert a + b == b;
    }
  }

  /** One more piece at the end of a prefix. */
  lemma FlattenFrom<T>(parts: seq<seq<T>>, k: nat)
    requires k < |parts|
    ensures Flatten(parts[k..]) == parts[k] + Flatten(parts[k + 1..])
    ensures k == |parts| - 1 ==> Flatten(parts[k..]) == parts[k]
  {
    assert parts[k..][1..] == parts[k + 1..];
    if k == |parts| - 1 {
      assert parts[k + 1..] == [];
    }
  }

  lemma FlattenPrefix<T>(parts: seq<seq<T>>, k: nat)
    requires k < |parts|
    ensures Flatten(parts[..k + 1]) == Flatten(parts[..k]) + parts[k]
  {
    assert parts[..k + 1] == parts[..k] + [parts[k]];
    FlattenAppend(parts[..k], [parts[k]]);
    assert Flatten([parts[k]]) == parts[k] + Flatten([]);
  }

  /** Whatever occurs in one piece occurs in the concatenation. */
  lemma {:induction false} InFlatten<T>(parts: seq<seq<T>>, k: nat, x: T)
    requires k < |parts| && x in parts[k]
    ensures x in Flatten(parts)
    decreases k
  {
    if k > 0 {
      InFlatten(parts[1..], k - 1, x);
    }
  }
}
