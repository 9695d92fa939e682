/** The list-truncating search of server_pdusize.go. */
module FitList {
  import opened Bytes
  import opened Results

  /** encode(k, truncated) encodes the first k elements. */
  type Encoder = (nat, bool) -> Result<seq<Byte>>

  predicate Fits(k: nat, budget: int, encode: Encoder) {
    encode(k, true).Ok? && |encode(k, true).value| <= budget
  }

  /** The largest length from 1 to k whose truncated encoding fits. */
  function LongestFit(k: nat, budget: int, encode: Encoder): (r: Option<nat>)
    ensures r.Some? ==> 1 <= r.value <= k && Fits(r.value, budget, encode)
    ensures r.Some? ==> forall j :: r.value < j <= k ==> !Fits(j, budget, encode)
    ensures r.None? ==> forall j :: 1 <= j <= k ==> !Fits(j, budget, encode)
  {
    if k == 0 then None else if Fits(k, budget, encode) then Some(k) else LongestFit(k - 1, budget, encode)
  }

  function Shorter(n: nat): nat {
    if n == 0 then 0 else n - 1
  }

  /** The whole list if it fits, else the longest non-empty proper prefix that does, else an error. */
  function Fit(n: nat, budget: int, encode: Encoder): (r: Result<seq<Byte>>)
  {
    var full := encode(n, false);
    if full.Err? || |full.value| <= budget then full
    else
      match LongestFit(Shorter(n), budget, encode)
      case None => Err
      case Some(k) => encode(k, true)
  }

  /** Truncated encodings succeed and grow with the number of elements. */
  ghost predicate Monotone(n: nat, encode: Encoder) {
    && (forall k :: 0 <= k <= n ==> encode(k, true).Ok?)
    && (forall j, k :: 0 <= j <= k <= n ==> |encode(j, true).value| <= |encode(k, true).value|)
  }

  /** fitList: the binary search finds the optimum for every length-monotone encoder. */
  method SearchFit(n: nat, budget: int, encode: Encoder) returns (r: Result<seq<Byte>>)
    ensures r.Ok? ==> |r.value| <= budget
    ensures Monotone(n, encode) ==> r == Fit(n, budget, encode)
  {
    var full := encode(n, false);
    if full.Err? || |full.value| <= budget {
      return full;
    }
    var best: Option<seq<Byte>> := None;
    var lo, hi := 1, n - 1;
    while lo <= hi
      invariant 1 <= lo <= hi + 1 || (hi < lo && n == 0 && lo == 1)
      invariant hi <= n - 1
      invariant best.Some? ==> |best.value| <= budget
      invariant best.Some? ==> 2 <= lo && Fits(lo - 1, budget, encode) && best.value == encode(lo - 1, true).value
      invariant best.None? ==> lo == 1
      invariant Monotone(n, encode) ==> forall k: nat :: hi < k < n ==> !Fits(k, budget, encode)
    {
      var mid := (lo + hi) / 2;
      var b := encode(mid, true);
      if b.Err? {
        return Err;
      }
      if |b.value| <= budget {
        best := Some(b.value);
        lo := mid + 1;
      } else {
        hi := mid - 1;
      }
    }
    if best.None? {
      return Err;
    }
    return Ok(best.value);
  }
}
