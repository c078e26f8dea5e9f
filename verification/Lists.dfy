/** Cutting and reversing lists. */
module Lists {

  function Reverse<T>(l: seq<T>): (r: seq<T>)
    ensures |r| == |l|
    ensures forall i :: 0 <= i < |l| ==> r[i] == l[|l| - 1 - i]
  {
    seq(|l|, i requires 0 <= i < |l| => l[|l| - 1 - i])
  }

  /** SQL's "limit n". */
  function Take<T>(l: seq<T>, n: nat): (r: seq<T>)
    ensures |r| == if |l| <= n then |l| else n
  {
    if |l| <= n then l else l[..n]
  }

  /** The last `n` of a list. */
  function TakeLast<T>(l: seq<T>, n: nat): (r: seq<T>)
    ensures |r| == if |l| <= n then |l| else n
  {
    if |l| <= n then l else l[|l| - n..]
  }

  lemma TakeConcat<T>(a: seq<T>, b: seq<T>, n: nat)
    ensures Take(a, n) + Take(b, n - |Take(a, n)|) == Take(a + b, n)
  {
  }
}
