/**
 * The candidate strings of the exhaustive (charset) search: every string over
 * the charset whose length lies in [minLength, maxLength], shortest first and,
 * within one length, in `itertools.product(charset, repeat=length)` order.
 */
module Enumeration {
  import opened Arith

  /** `b ** e` on naturals. */
  function Pow(b: nat, e: nat): nat
  {
    if e == 0 then 1 else b * Pow(b, e - 1)
  }

  /** `Pow(b, lo) + Pow(b, lo + 1) + ... + Pow(b, hi - 1)`. */
  function SumPow(b: nat, lo: nat, hi: nat): nat
    decreases hi - lo
  {
    if lo >= hi then 0 else Pow(b, lo) + SumPow(b, lo + 1, hi)
  }

  /** The number of candidates the worker precomputes: the sum of `len(charset) ** L` over the length range. */
  function TotalCombinations(charset: string, minLength: nat, maxLength: nat): nat
  {
    SumPow(|charset|, minLength, maxLength + 1)
  }

  /** Every character of `s` is drawn from `charset`. */
  predicate Over(charset: string, s: string)
  {
    forall i :: 0 <= i < |s| ==> s[i] in charset
  }

  /** No element occurs twice. */
  predicate Distinct<T(==)>(s: seq<T>)
  {
    forall i, j :: 0 <= i < j < |s| ==> s[i] != s[j]
  }

  /** Two repetition-free sequences with no element in common concatenate to one. */
  lemma DistinctAppend<T>(a: seq<T>, b: seq<T>)
    requires Distinct(a) && Distinct(b)
    requires forall x :: x in a ==> x !in b
    ensures Distinct(a + b)
  {
    var r := a + b;
    forall i, j | 0 <= i < j < |r| ensures r[i] != r[j] {
      if j < |a| {
        assert r[i] == a[i] && r[j] == a[j];
      } else if i < |a| {
        assert r[i] == a[i] && r[j] == b[j - |a|];
        assert r[i] in a;
      } else {
        assert r[i] == b[i - |a|] && r[j] == b[j - |a|];
      }
    }
  }

  lemma OnlyPosition<T>(s: seq<T>, x: T, pos: nat, k: nat)
    requires Distinct(s) && pos < |s| && s[pos] == x && k < |s|
    ensures s[k] == x <==> k == pos
  {
  }

  // ---------------------------------------------------------------------------
  // itertools.product

  /** One prefix followed by each charset character in turn. */
  function Row(prefix: string, charset: string): (r: seq<string>)
    ensures |r| == |charset|
    ensures forall j :: 0 <= j < |charset| ==> r[j] == prefix + [charset[j]]
  {
    seq(|charset|, j requires 0 <= j < |charset| => prefix + [charset[j]])
  }

  /** One more position: every prefix, in order, followed by every charset character, in order. */
  function Extend(prefixes: seq<string>, charset: string): (r: seq<string>)
    ensures |r| == |prefixes| * |charset|
  {
    if prefixes == [] then []
    else
      var tail := Extend(prefixes[1..], charset);
      assert |prefixes| * |charset| == |charset| + (|prefixes| - 1) * |charset|;
      Row(prefixes[0], charset) + tail
  }

  /**
   * `itertools.product(charset, repeat=length)` as strings: the sequence holds
   * `len(charset) ** length` strings.
   */
  function Product(charset: string, length: nat): seq<string>
  {
    if length == 0 then [""] else Extend(Product(charset, length - 1), charset)
  }

  /** A tier holds `len(charset) ** length` strings. */
  lemma {:induction false} ProductCount(charset: string, length: nat)
    ensures |Product(charset, length)| == Pow(|charset|, length)
  {
    if length > 0 {
      ProductCount(charset, length - 1);
      var m := |Product(charset, length - 1)|;
      assert |Product(charset, length)| == m * |charset|;
      assert m * |charset| == |charset| * m;
    }
  }

  /** Position `i` of an extended sequence: prefix `i / n` followed by character `i % n`. */
  lemma {:induction false} ExtendAt(prefixes: seq<string>, charset: string, i: nat)
    requires i < |prefixes| * |charset|
    ensures 0 < |charset| && i / |charset| < |prefixes|
    ensures Extend(prefixes, charset)[i] == prefixes[i / |charset|] + [charset[i % |charset|]]
    decreases |prefixes|
  {
    var n := |charset|;
    var m := |prefixes|;
    MulPositive(m, n);
    var row := Row(prefixes[0], charset);
    var tail := Extend(prefixes[1..], charset);
    assert Extend(prefixes, charset) == row + tail;
    if i < n {
      DivModSmall(i, n);
      assert (row + tail)[i] == row[i];
    } else {
      MulPred(m, n);
      assert (row + tail)[i] == tail[i - n];
      ExtendAt(prefixes[1..], charset, i - n);
      DivModNext(i, n);
    }
  }

  /** The candidate at position `i` of one length tier, in odometer form. */
  lemma ProductStep(charset: string, length: nat, i: nat)
    requires 0 < length && i < |Product(charset, length)|
    ensures 0 < |charset| && i / |charset| < |Product(charset, length - 1)|
    ensures Product(charset, length)[i] == Product(charset, length - 1)[i / |charset|] + [charset[i % |charset|]]
  {
    ExtendAt(Product(charset, length - 1), charset, i);
  }

  /** Every string of a tier has that tier's length and is drawn from the charset. */
  lemma {:induction false} ProductShape(charset: string, length: nat, i: nat)
    requires i < |Product(charset, length)|
    ensures |Product(charset, length)[i]| == length
    ensures Over(charset, Product(charset, length)[i])
  {
    if length > 0 {
      ProductStep(charset, length, i);
      DivNat(i, |charset|);
      ProductShape(charset, length - 1, i / |charset|);
    }
  }

  // ---------------------------------------------------------------------------
  // The odometer reading of a string: its first character is the most significant digit.

  /** The position of the first occurrence of `c` in `charset`. */
  function IndexOf(charset: string, c: char): (k: nat)
    requires c in charset
    ensures k < |charset| && charset[k] == c && c !in charset[..k]
  {
    if charset[0] == c then 0
    else
      var k := 1 + IndexOf(charset[1..], c);
      assert charset[..k] == [charset[0]] + charset[1..][..k - 1];
      k
  }

  /** `s` read as a base-`len(charset)` numeral whose digits are charset positions, most significant first. */
  function Rank(charset: string, s: string): nat
    requires Over(charset, s)
  {
    if s == "" then 0
    else Rank(charset, s[..|s| - 1]) * |charset| + IndexOf(charset, s[|s| - 1])
  }

  /** A numeral of `length` digits is below `len(charset) ** length`. */
  lemma {:induction false} RankBound(charset: string, s: string)
    requires Over(charset, s)
    ensures Rank(charset, s) < Pow(|charset|, |s|)
  {
    if s != "" {
      var n := |charset|;
      var t := s[..|s| - 1];
      RankBound(charset, t);
      var rt, p, k := Rank(charset, t), Pow(n, |t|), IndexOf(charset, s[|s| - 1]);
      assert Rank(charset, s) == rt * n + k;
      assert Pow(n, |s|) == n * p;
      DigitBound(rt, p, k, n);
      assert p * n == n * p;
    }
  }

  /** Every string over the charset sits in its tier at the position its odometer reading names. */
  lemma {:induction false} ProductAtRank(charset: string, s: string, r: nat)
    requires Over(charset, s) && r == Rank(charset, s)
    ensures r < |Product(charset, |s|)| && Product(charset, |s|)[r] == s
  {
    RankBound(charset, s);
    ProductCount(charset, |s|);
    if s != "" {
      var n := |charset|;
      var t := s[..|s| - 1];
      var c := s[|s| - 1];
      var k := IndexOf(charset, c);
      var rt := Rank(charset, t);
      assert r == rt * n + k;
      ProductAtRank(charset, t, rt);
      ProductStep(charset, |s|, r);
      DivModUnique(r, n, rt, k);
      assert s == t + [c];
    }
  }


  /** With distinct characters, reading the odometer at tier position `i` gives back `i`. */
  lemma {:induction false} RankOfProduct(charset: string, length: nat, i: nat)
    requires Distinct(charset)
    requires i < |Product(charset, length)|
    ensures Over(charset, Product(charset, length)[i])
    ensures Rank(charset, Product(charset, length)[i]) == i
  {
    ProductShape(charset, length, i);
    if length > 0 {
      var n := |charset|;
      var s := Product(charset, length)[i];
      ProductStep(charset, length, i);
      DivNat(i, n);
      var q, k := i / n, i % n;
      RankOfProduct(charset, length - 1, q);
      assert s[..|s| - 1] == Product(charset, length - 1)[q];
      IndexOfDistinct(charset, k);
      assert Rank(charset, s) == q * n + k;
      DivModSplit(i, n);
    }
  }

  /** In a charset without repeats, the first occurrence of `charset[k]` is at `k`. */
  lemma IndexOfDistinct(charset: string, k: nat)
    requires Distinct(charset) && k < |charset|
    ensures IndexOf(charset, charset[k]) == k
  {
  }

  /** A tier holds exactly the strings of its length over the charset. */
  lemma ProductMember(charset: string, length: nat, s: string)
    ensures s in Product(charset, length) <==> |s| == length && Over(charset, s)
  {
    var p := Product(charset, length);
    if s in p {
      var i :| 0 <= i < |p| && p[i] == s;
      ProductShape(charset, length, i);
    }
    if |s| == length && Over(charset, s) {
      ProductAtRank(charset, s, Rank(charset, s));
    }
  }

  /** With distinct characters a tier repeats nothing. */
  lemma ProductDistinct(charset: string, length: nat)
    requires Distinct(charset)
    ensures Distinct(Product(charset, length))
  {
    var p := Product(charset, length);
    forall i, j | 0 <= i < j < |p| ensures p[i] != p[j] {
      RankOfProduct(charset, length, i);
      RankOfProduct(charset, length, j);
    }
  }

  // ---------------------------------------------------------------------------
  // All tiers of the length range.

  /** The tiers of lengths `lo`, `lo + 1`, ..., `hi - 1`, concatenated in ascending length. */
  function Tiers(charset: string, lo: nat, hi: nat): seq<string>
    decreases hi - lo
  {
    if lo >= hi then [] else Product(charset, lo) + Tiers(charset, lo + 1, hi)
  }

  /** The candidates of the charset search, in the order the worker tries them. */
  function Candidates(charset: string, minLength: nat, maxLength: nat): seq<string>
  {
    Tiers(charset, minLength, maxLength + 1)
  }

  /** The tiers hold `Pow(n, lo) + ... + Pow(n, hi - 1)` strings. */
  lemma {:induction false} TiersCount(charset: string, lo: nat, hi: nat)
    ensures |Tiers(charset, lo, hi)| == SumPow(|charset|, lo, hi)
    decreases hi - lo
  {
    if lo < hi {
      ProductCount(charset, lo);
      TiersCount(charset, lo + 1, hi);
    }
  }

  /** There are as many candidates as the worker's precomputed total. */
  lemma CandidatesCount(charset: string, minLength: nat, maxLength: nat)
    ensures |Candidates(charset, minLength, maxLength)| == TotalCombinations(charset, minLength, maxLength)
  {
    TiersCount(charset, minLength, maxLength + 1);
  }

  /** Every string of the tiers has a length in range. */
  lemma {:induction false} TiersLength(charset: string, lo: nat, hi: nat, i: nat)
    requires i < |Tiers(charset, lo, hi)|
    ensures lo <= |Tiers(charset, lo, hi)[i]| < hi
    decreases hi - lo
  {
    var p := Product(charset, lo);
    TiersAt(charset, lo, hi, i);
    if i < |p| {
      ProductShape(charset, lo, i);
    } else {
      TiersLength(charset, lo + 1, hi, i - |p|);
    }
  }

  /** Every string of the tiers is drawn from the charset. */
  lemma {:induction false} TiersOver(charset: string, lo: nat, hi: nat, i: nat)
    requires i < |Tiers(charset, lo, hi)|
    ensures Over(charset, Tiers(charset, lo, hi)[i])
    decreases hi - lo
  {
    var p := Product(charset, lo);
    TiersAt(charset, lo, hi, i);
    if i < |p| {
      ProductShape(charset, lo, i);
    } else {
      TiersOver(charset, lo + 1, hi, i - |p|);
    }
  }

  /** Every candidate is a string over the charset with a length in range. */
  lemma TiersShape(charset: string, lo: nat, hi: nat, i: nat)
    requires i < |Tiers(charset, lo, hi)|
    ensures lo <= |Tiers(charset, lo, hi)[i]| < hi
    ensures Over(charset, Tiers(charset, lo, hi)[i])
  {
    TiersLength(charset, lo, hi, i);
    TiersOver(charset, lo, hi, i);
  }

  /** Candidates come shortest first. */
  lemma {:induction false} TiersAscending(charset: string, lo: nat, hi: nat, i: nat, j: nat)
    requires i <= j < |Tiers(charset, lo, hi)|
    ensures |Tiers(charset, lo, hi)[i]| <= |Tiers(charset, lo, hi)[j]|
    decreases hi - lo
  {
    var p := Product(charset, lo);
    TiersAt(charset, lo, hi, i);
    TiersAt(charset, lo, hi, j);
    if i < |p| {
      ProductShape(charset, lo, i);
      TiersShape(charset, lo, hi, j);
    } else {
      TiersAscending(charset, lo + 1, hi, i - |p|, j - |p|);
    }
  }

  /** Position `i` of the tiers lies in the first tier or, shifted by its size, in the remaining ones. */
  lemma TiersAt(charset: string, lo: nat, hi: nat, i: nat)
    requires lo < hi && i < |Tiers(charset, lo, hi)|
    ensures i < |Product(charset, lo)| ==> Tiers(charset, lo, hi)[i] == Product(charset, lo)[i]
    ensures |Product(charset, lo)| <= i ==>
      i - |Product(charset, lo)| < |Tiers(charset, lo + 1, hi)|
      && Tiers(charset, lo, hi)[i] == Tiers(charset, lo + 1, hi)[i - |Product(charset, lo)|]
  {
    var p := Product(charset, lo);
    var t := Tiers(charset, lo + 1, hi);
    assert Tiers(charset, lo, hi) == p + t;
  }

  /** Offset `r` of the tier of length `len` is position `SumPow(n, lo, len) + r` of the tiers. */
  lemma {:induction false} TiersIndex(charset: string, lo: nat, hi: nat, len: nat, r: nat)
    requires lo <= len < hi && r < |Product(charset, len)|
    ensures SumPow(|charset|, lo, len) + r < |Tiers(charset, lo, hi)|
    ensures Tiers(charset, lo, hi)[SumPow(|charset|, lo, len) + r] == Product(charset, len)[r]
    decreases hi - lo
  {
    var p := Product(charset, lo);
    var t := Tiers(charset, lo + 1, hi);
    assert Tiers(charset, lo, hi) == p + t;
    if len == lo {
      assert SumPow(|charset|, lo, len) == 0;
      TiersAt(charset, lo, hi, r);
    } else {
      TiersIndex(charset, lo + 1, hi, len, r);
      ProductCount(charset, lo);
      var off := SumPow(|charset|, lo + 1, len) + r;
      assert SumPow(|charset|, lo, len) + r == |p| + off;
      TiersAt(charset, lo, hi, |p| + off);
    }
  }

  /**
   * A string over the charset with a length in range is found after all shorter
   * tiers, at the offset its odometer reading names; `k` is that position.
   */
  lemma TiersPosition(charset: string, lo: nat, hi: nat, s: string) returns (k: nat)
    requires Over(charset, s) && lo <= |s| < hi
    ensures k == SumPow(|charset|, lo, |s|) + Rank(charset, s)
    ensures k < |Tiers(charset, lo, hi)| && Tiers(charset, lo, hi)[k] == s
  {
    var r := Rank(charset, s);
    ProductAtRank(charset, s, Rank(charset, s));
    TiersIndex(charset, lo, hi, |s|, r);
    k := SumPow(|charset|, lo, |s|) + r;
  }

  /** With distinct characters no candidate is tried twice. */
  lemma {:induction false} TiersDistinct(charset: string, lo: nat, hi: nat)
    requires Distinct(charset)
    ensures Distinct(Tiers(charset, lo, hi))
    decreases hi - lo
  {
    if lo < hi {
      var p := Product(charset, lo);
      var t := Tiers(charset, lo + 1, hi);
      ProductDistinct(charset, lo);
      TiersDistinct(charset, lo + 1, hi);
      forall x | x in p ensures x !in t {
        ProductMember(charset, lo, x);
        if x in t {
          var j :| 0 <= j < |t| && t[j] == x;
          TiersLength(charset, lo + 1, hi, j);
          assert false;
        }
      }
      DistinctAppend(p, t);
      assert Tiers(charset, lo, hi) == p + t;
    }
  }

  /** The candidates are exactly the strings over the charset with a length in [minLength, maxLength]. */
  lemma CandidatesMember(charset: string, minLength: nat, maxLength: nat, s: string)
    ensures s in Candidates(charset, minLength, maxLength) <==> Over(charset, s) && minLength <= |s| <= maxLength
  {
    var c := Candidates(charset, minLength, maxLength);
    if s in c {
      var k :| 0 <= k < |c| && c[k] == s;
      TiersShape(charset, minLength, maxLength + 1, k);
    }
    if Over(charset, s) && minLength <= |s| <= maxLength {
      var k := TiersPosition(charset, minLength, maxLength + 1, s);
    }
  }

  /**
   * With distinct characters each string over the charset with a length in range
   * occurs at exactly one position: after every shorter candidate, at the offset
   * its odometer reading names.
   */
  lemma CandidatesExactlyOnce(charset: string, minLength: nat, maxLength: nat, s: string, k: nat)
    requires Distinct(charset)
    requires Over(charset, s) && minLength <= |s| <= maxLength
    requires k < |Candidates(charset, minLength, maxLength)|
    ensures Candidates(charset, minLength, maxLength)[k] == s <==> k == SumPow(|charset|, minLength, |s|) + Rank(charset, s)
  {
    var c := Tiers(charset, minLength, maxLength + 1);
    var pos := TiersPosition(charset, minLength, maxLength + 1, s);
    TiersDistinct(charset, minLength, maxLength + 1);
    OnlyPosition(c, s, pos, k);
  }

  /** Each candidate is a string over the charset with a length in [minLength, maxLength]. */
  lemma CandidateShape(charset: string, minLength: nat, maxLength: nat, i: nat)
    requires i < |Candidates(charset, minLength, maxLength)|
    ensures Over(charset, Candidates(charset, minLength, maxLength)[i])
    ensures minLength <= |Candidates(charset, minLength, maxLength)[i]| <= maxLength
  {
    TiersShape(charset, minLength, maxLength + 1, i);
  }

  /** Candidates are tried shortest first. */
  lemma CandidatesAscending(charset: string, minLength: nat, maxLength: nat, i: nat, j: nat)
    requires i <= j < |Candidates(charset, minLength, maxLength)|
    ensures minLength <= |Candidates(charset, minLength, maxLength)[i]| <= |Candidates(charset, minLength, maxLength)[j]| <= maxLength
  {
    TiersAscending(charset, minLength, maxLength + 1, i, j);
    TiersShape(charset, minLength, maxLength + 1, i);
    TiersShape(charset, minLength, maxLength + 1, j);
  }

  lemma RowAb(prefix: string)
    ensures Row(prefix, "ab") == [prefix + "a", prefix + "b"]
  {
    var r := Row(prefix, "ab");
    assert r[0] == prefix + "a" && r[1] == prefix + "b";
  }

  /** The charset "ab" with lengths 1..2 yields a, b, aa, ab, ba, bb in that order. */
  lemma CandidatesAb()
    ensures Candidates("ab", 1, 2) == ["a", "b", "aa", "ab", "ba", "bb"]
  {
    RowAb("");
    RowAb("a");
    RowAb("b");
    var one := Product("ab", 1);
    assert Extend([], "ab") == [];
    assert "" + "a" == "a" && "" + "b" == "b";
    assert one == Row("", "ab");
    assert one == ["a", "b"];
    var two := Product("ab", 2);
    assert two == Extend(one, "ab");
    assert one[1..] == ["b"];
    var tail := Extend(["b"], "ab");
    assert tail == Row("b", "ab") + Extend([], "ab");
    assert two == Row("a", "ab") + tail;
    assert "a" + "a" == "aa" && "a" + "b" == "ab" && "b" + "a" == "ba" && "b" + "b" == "bb";
    assert two == ["aa", "ab"] + ["ba", "bb"];
    assert Tiers("ab", 3, 3) == [];
  }
}
