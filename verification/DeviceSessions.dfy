/** The window of packet numbers of a device session, src/octopus/srv/devsess.go. */
module DeviceSessions {

  import opened Bytes

  /** Greater than the last number, or one of the first ten when the last is among the last five. */
  predicate Accepts(ridx: u16, packNum: u16) {
    packNum > ridx || (packNum < ridx && packNum < 10 && ridx > 65530)
  }

  class DevSession {
    var ridx: u16

    method VerifyPack(packNum: u16) returns (ok: bool)
      modifies this
      ensures ok == Accepts(old(ridx), packNum)
      ensures ok <==> old(ridx) < packNum || (packNum <= 9 && 65531 <= old(ridx))
      ensures ridx == if ok then packNum else old(ridx)
    {
      if packNum > ridx {
      } else if packNum < ridx && packNum < 10 && ridx > 65530 {
      } else {
        return false;
      }
      ridx := packNum;
      return true;
    }
  }

  const MODULUS := 0x1_0000

  /** The numbers that a session accepts of those offered to it. */
  function Accepted(ridx: u16, offers: seq<u16>): seq<u16>
    decreases |offers|
  {
    if |offers| == 0 then []
    else if Accepts(ridx, offers[0]) then [offers[0]] + Accepted(offers[0], offers[1..])
    else Accepted(ridx, offers[1..])
  }

  function Round(ridx: u16, rounds: nat, p: u16): nat {
    if p < ridx then rounds + 1 else rounds
  }

  /** Each accepted number with 65536 added for every time the numbers started again. */
  function Lifted(ridx: u16, rounds: nat, accepted: seq<u16>): (r: seq<nat>)
    ensures |r| == |accepted|
    decreases |accepted|
  {
    if |accepted| == 0 then []
    else
      var p := accepted[0];
      [MODULUS * Round(ridx, rounds, p) + p] + Lifted(p, Round(ridx, rounds, p), accepted[1..])
  }

  /** b follows a: it is greater, and a new start of the numbers moves on by at most 14. */
  predicate Follows(a: nat, b: nat, restarts: bool) {
    a < b && (restarts ==> b <= a + 14)
  }

  lemma NextFollows(ridx: u16, rounds: nat, p: u16)
    requires Accepts(ridx, p)
    ensures Follows(MODULUS * rounds + ridx, MODULUS * Round(ridx, rounds, p) + p, p < ridx)
    ensures (MODULUS * Round(ridx, rounds, p) + p) % MODULUS == p
  {
  }

  /** Over any run the accepted numbers are the remainders modulo 65536 of naturals that increase
      strictly from the session's own number on, and a new start moves on by 1 to 14. */
  lemma {:induction false} AcceptedIncrease(ridx: u16, rounds: nat, offers: seq<u16>, i: nat)
    requires i < |Accepted(ridx, offers)|
    ensures var acc := Accepted(ridx, offers);
            var lifted := Lifted(ridx, rounds, acc);
            var last := if i == 0 then ridx else acc[i - 1];
            && lifted[i] % MODULUS == acc[i]
            && Accepts(last, acc[i])
            && Follows(if i == 0 then MODULUS * rounds + ridx else lifted[i - 1], lifted[i], acc[i] < last)
    decreases |offers|
  {
    hide Accepts, Follows, Round;
    var p, rest := offers[0], offers[1..];
    if Accepts(ridx, p) {
      var tail := Accepted(p, rest);
      assert Accepted(ridx, offers) == [p] + tail && ([p] + tail)[1..] == tail;
      NextFollows(ridx, rounds, p);
      if i > 0 { AcceptedIncrease(p, Round(ridx, rounds, p), rest, i - 1); }
    } else {
      AcceptedIncrease(ridx, rounds, rest, i);
    }
  }

  /** No number is accepted twice unless the numbers started again in between. */
  lemma {:induction false} AcceptedOnce(ridx: u16, offers: seq<u16>, i: nat, j: nat)
    requires i < j < |Accepted(ridx, offers)|
    requires forall k :: i < k <= j ==> Accepted(ridx, offers)[k - 1] <= Accepted(ridx, offers)[k]
    ensures Accepted(ridx, offers)[i] < Accepted(ridx, offers)[j]
    decreases j
  {
    AcceptedIncrease(ridx, 0, offers, j);
    if i < j - 1 { AcceptedOnce(ridx, offers, i, j - 1); }
  }

  /** A lost packet does not block a session: after it every later number of the round is accepted, and
      behind the last five numbers every one of the first ten. */
  lemma LaterNumbersAccepted(ridx: u16, p: u16)
    ensures ridx < p ==> Accepts(ridx, p)
    ensures 65531 <= ridx && p <= 9 ==> Accepts(ridx, p)
    ensures Accepts(ridx, p) ==> ridx < p || (65531 <= ridx && p <= 9)
  {
  }

  /** A session never gets stuck: every state accepts some number. */
  lemma SomeNumberAccepted(ridx: u16)
    ensures exists p: u16 :: Accepts(ridx, p)
  {
    assert Accepts(ridx, if ridx < 65535 then ridx + 1 else 0);
  }
}
