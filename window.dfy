/**
 * The window-search policy of the two validators, stated over the code
 * generated at each signed distance from the starting counter: the HOTP
 * validator looks ahead only (distances 0, 1, ..., window); the TOTP
 * validator looks both ways (0, +1, -1, +2, -2, ..., +window, -window).
 * Both stop at the first match and at the first generator error.
 */
module Window {
  import opened Common

  /** Code generation at a distance succeeded and gave something other than the candidate. */
  predicate Rejects(r: Result<seq<char>>, otp: seq<char>) {
    r.Success? && r.value != otp
  }

  /**
   * Generation fails, if at all, at every distance and with the same
   * status, which is never `InvalidOtp` (the generator's errors do not
   * depend on the counter).
   */
  ghost predicate UniformFailure(codes: int -> Result<seq<char>>) {
    forall j, k :: codes(j).Failure? ==> codes(k) == codes(j) && codes(j).status != InvalidOtp
  }

  /** The look-ahead scan from distance `iter` on: the distance of the first match. */
  function ForwardScan(codes: int -> Result<seq<char>>, otp: seq<char>, window: nat, iter: nat): (r: Result<nat>)
    requires iter <= window
    ensures r.Success? ==> iter <= r.value <= window && codes(r.value) == Success(otp)
    decreases window - iter
  {
    match codes(iter)
    case Failure(e) => Failure(e)
    case Success(code) =>
      if code == otp then Success(iter)
      else if iter == window then Failure(InvalidOtp)
      else ForwardScan(codes, otp, window, iter + 1)
  }

  /** The look-ahead scan stops at k exactly when k is the first matching distance from `iter` on. */
  lemma {:induction false} ForwardScanFirstMatch(codes: int -> Result<seq<char>>, otp: seq<char>, window: nat, iter: nat, k: nat)
    requires iter <= window
    ensures ForwardScan(codes, otp, window, iter) == Success(k) <==>
      iter <= k <= window && codes(k) == Success(otp) &&
      forall j :: iter <= j < k ==> Rejects(codes(j), otp)
    decreases window - iter
  {
    if iter < window {
      ForwardScanFirstMatch(codes, otp, window, iter + 1, k);
    }
  }

  /** The look-ahead scan reports `InvalidOtp` exactly when every distance up to the window rejects. */
  lemma {:induction false} ForwardScanNoMatch(codes: int -> Result<seq<char>>, otp: seq<char>, window: nat, iter: nat)
    requires iter <= window
    requires UniformFailure(codes)
    ensures ForwardScan(codes, otp, window, iter) == Failure(InvalidOtp) <==>
      forall j :: iter <= j <= window ==> Rejects(codes(j), otp)
    decreases window - iter
  {
    if iter < window {
      ForwardScanNoMatch(codes, otp, window, iter + 1);
    }
  }

  /** A generator error surfaces at the first distance; without one the scan ends in a match or `InvalidOtp`. */
  lemma {:induction false} ForwardScanError(codes: int -> Result<seq<char>>, otp: seq<char>, window: nat, iter: nat)
    requires iter <= window
    requires UniformFailure(codes)
    ensures codes(iter).Failure? ==> ForwardScan(codes, otp, window, iter) == Failure(codes(iter).status)
    ensures codes(iter).Success? ==>
      ForwardScan(codes, otp, window, iter).Success? || ForwardScan(codes, otp, window, iter) == Failure(InvalidOtp)
    decreases window - iter
  {
    if iter < window {
      ForwardScanError(codes, otp, window, iter + 1);
    }
  }

  /**
   * Step `iter` of the two-way scan: the forward distance +iter is tried,
   * then (from step 1 on) the backward distance -iter. The step ends the
   * scan with a generator error or with the signed distance of a match, or
   * passes it on (`None`).
   */
  function CentredStep(codes: int -> Result<seq<char>>, otp: seq<char>, iter: nat): (r: Result<Option<int>>)
    ensures r.Success? && r.value.Some? ==> Abs(r.value.value) == iter && codes(r.value.value) == Success(otp)
  {
    match codes(iter)
    case Failure(e) => Failure(e)
    case Success(ahead) =>
      if ahead == otp then Success(Some(iter))
      else if iter == 0 then Success(None)
      else
        match Behind(codes, iter)
        case Failure(e) => Failure(e)
        case Success(behind) => if behind == otp then Success(Some(-(iter as int))) else Success(None)
  }

  /** The two-way scan from step `iter` on: the signed distance of the first match. */
  function CentredScan(codes: int -> Result<seq<char>>, otp: seq<char>, window: nat, iter: nat): (r: Result<int>)
    requires iter <= window
    ensures r.Success? ==> iter <= Abs(r.value) <= window && codes(r.value) == Success(otp)
    decreases window - iter
  {
    match CentredStep(codes, otp, iter)
    case Failure(e) => Failure(e)
    case Success(Some(pos)) => Success(pos)
    case Success(None) =>
      if iter == window then Failure(InvalidOtp) else CentredScan(codes, otp, window, iter + 1)
  }

  /**
   * The code at signed distance j, i.e. `codes(j)`. It exists for the proofs
   * only: a named function gives the solver a term to match on.
   */
  function At(codes: int -> Result<seq<char>>, j: int): Result<seq<char>> {
    codes(j)
  }

  /** The code at backward distance j, i.e. at signed distance -j. */
  function Behind(codes: int -> Result<seq<char>>, j: int): Result<seq<char>> {
    codes(-j)
  }

  function Abs(x: int): nat {
    if x < 0 then -x else x
  }

  /**
   * The tested distances before pos, in the two-way order: every distance
   * of smaller size in both directions, and +|pos| when pos is backward.
   */
  ghost predicate RejectedBefore(codes: int -> Result<seq<char>>, otp: seq<char>, from: nat, pos: int) {
    (forall j :: from <= j < Abs(pos) ==> Rejects(codes(j), otp)) &&
    (forall j :: from <= j < Abs(pos) && j > 0 ==> Rejects(Behind(codes, j), otp)) &&
    (pos < 0 ==> Rejects(codes(-pos), otp))
  }

  /** The two-way scan stops at pos exactly when pos is the first matching distance in the two-way order. */
  lemma {:induction false} CentredScanFirstMatch(codes: int -> Result<seq<char>>, otp: seq<char>, window: nat, iter: nat, pos: int)
    requires iter <= window
    ensures CentredScan(codes, otp, window, iter) == Success(pos) <==>
      iter <= Abs(pos) <= window && codes(pos) == Success(otp) && RejectedBefore(codes, otp, iter, pos)
    decreases window - iter
  {
    if iter < window {
      CentredScanFirstMatch(codes, otp, window, iter + 1, pos);
    }
  }

  /**
   * The same from the first step, with the tested distances spelled out:
   * every distance strictly between -|pos| and +|pos|, and +|pos| when pos
   * is backward.
   */
  lemma CentredScanFirstMatchFromStart(codes: int -> Result<seq<char>>, otp: seq<char>, window: nat, pos: int)
    ensures CentredScan(codes, otp, window, 0) == Success(pos) <==>
      Abs(pos) <= window && codes(pos) == Success(otp) &&
      (forall j :: -(Abs(pos) as int) < j < Abs(pos) ==> Rejects(codes(j), otp)) &&
      (pos < 0 ==> Rejects(codes(-pos), otp))
  {
    CentredScanFirstMatch(codes, otp, window, 0, pos);
    if RejectedBefore(codes, otp, 0, pos) {
      forall j | -(Abs(pos) as int) < j < Abs(pos)
        ensures Rejects(codes(j), otp)
      {
        if j < 0 {
          assert Rejects(Behind(codes, -j), otp);
        }
      }
    }
  }

  /** A match at distance 0 ends the scan at once. */
  lemma CentredScanMatchAtZero(codes: int -> Result<seq<char>>, otp: seq<char>, window: nat)
    requires codes(0) == Success(otp)
    ensures CentredScan(codes, otp, window, 0) == Success(0)
  {
    assert CentredStep(codes, otp, 0) == Success(Some(0));
  }

  /** The two-way scan reports `InvalidOtp` exactly when every distance from -window to +window rejects. */
  lemma {:induction false} CentredScanNoMatch(codes: int -> Result<seq<char>>, otp: seq<char>, window: nat, iter: nat)
    requires iter <= window
    requires UniformFailure(codes)
    ensures CentredScan(codes, otp, window, iter) == Failure(InvalidOtp) <==>
      forall j :: iter <= Abs(j) <= window ==> Rejects(codes(j), otp)
    decreases window - iter
  {
    if iter < window {
      CentredScanNoMatch(codes, otp, window, iter + 1);
    }
  }

  /** A generator error surfaces at distance 0; without one the scan ends in a match or `InvalidOtp`. */
  lemma {:induction false} CentredScanError(codes: int -> Result<seq<char>>, otp: seq<char>, window: nat, iter: nat)
    requires iter <= window
    requires UniformFailure(codes)
    ensures codes(iter).Failure? ==> CentredScan(codes, otp, window, iter) == Failure(codes(iter).status)
    ensures codes(iter).Success? ==>
      CentredScan(codes, otp, window, iter).Success? || CentredScan(codes, otp, window, iter) == Failure(InvalidOtp)
    decreases window - iter
  {
    if iter < window {
      CentredScanError(codes, otp, window, iter + 1);
    }
  }
}
