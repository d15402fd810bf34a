/** Little-endian word vectors: the as_words view of an intx integer (libs/eosio.evm/external/intx/intx.hpp). */
module WordVector {
  import opened MachineWord

  /** The number written in base 2^64, least significant word first. */
  function Val(s: seq<u64>): nat {
    if s == [] then 0 else s[0] + B * Val(s[1..])
  }

  /** 2^(64*k). */
  function Pow(k: nat): (r: nat)
    ensures r >= 1
  {
    if k == 0 then 1 else B * Pow(k - 1)
  }

  lemma {:induction false} PowAdd(a: nat, b: nat)
    ensures Pow(a + b) == Pow(a) * Pow(b)
  {
    if a == 0 {
    } else {
      PowAdd(a - 1, b);
      AppendStep(0, 0, Pow(a - 1), Pow(b));
    }
  }

  lemma {:induction false} ValAppend(a: seq<u64>, b: seq<u64>)
    ensures Val(a + b) == Val(a) + Pow(|a|) * Val(b)
  {
    if a == [] {
      assert a + b == b;
    } else {
      assert (a + b)[1..] == a[1..] + b;
      ValAppend(a[1..], b);
      AppendStep(a[0], Val(a[1..]), Pow(|a| - 1), Val(b));
    }
  }

  lemma AppendStep(w: int, va: int, p: int, vb: int)
    ensures w + B * (va + p * vb) == (w + B * va) + (B * p) * vb
  {
  }

  lemma ValCons(w: u64, s: seq<u64>)
    ensures Val([w] + s) == w + B * Val(s)
  {
    assert ([w] + s)[1..] == s;
  }

  lemma PowSucc(k: nat)
    ensures Pow(k + 1) == B * Pow(k)
  {
  }

  lemma EmptyValue()
    ensures Val([]) == 0 && Pow(0) == 1
  {
  }

  lemma ValSnoc(a: seq<u64>, w: u64)
    ensures Val(a + [w]) == Val(a) + Pow(|a|) * w
  {
    ValAppend(a, [w]);
    assert Val([w]) == w;
  }

  /** Splitting a vector at position i. */
  lemma ValSplit(s: seq<u64>, i: nat)
    requires i <= |s|
    ensures Val(s) == Val(s[..i]) + Pow(i) * Val(s[i..])
  {
    hide Val, Pow;
    ValAppend(s[..i], s[i..]);
    assert s[..i] + s[i..] == s;
  }

  lemma {:induction false} ValBound(s: seq<u64>)
    ensures Val(s) < Pow(|s|)
  {
    if s == [] {
    } else {
      ValBound(s[1..]);
    }
  }

  lemma {:induction false} ValZeros(s: seq<u64>)
    requires forall i | 0 <= i < |s| :: s[i] == 0
    ensures Val(s) == 0
  {
    if s == [] {
    } else {
      ValZeros(s[1..]);
    }
  }

  /** A vector is determined by its value and its length. */
  lemma {:induction false} ValInjective(a: seq<u64>, b: seq<u64>)
    requires |a| == |b| && Val(a) == Val(b)
    ensures a == b
  {
    if a == [] {
    } else {
      assert a[0] == Val(a) % B && b[0] == Val(b) % B;
      ValInjective(a[1..], b[1..]);
      assert a == [a[0]] + a[1..] && b == [b[0]] + b[1..];
    }
  }
}
