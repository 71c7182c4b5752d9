/**
 * The RFID wait at the start of `main`.  Each poll of the card reader yields no
 * line (`None`) or a raw line, which `read_rfid` strips.  An empty UID keeps the
 * loop waiting; the first non-empty UID decides: the known card fires the LED and
 * lets recording start, any other card ends `main` without recording.
 */
module Credential {
  import opened Wrappers
  import opened Text

  /** `known_uid`. */
  const KnownUid: string := "69 DC FC D5"

  /** The UID a poll yields once stripped, as `read_rfid` returns it. */
  function Uid(read: Option<string>): Option<string> {
    if read.Some? then Some(Strip(read.value)) else None
  }

  /** `if uid:` — a poll that yields a non-empty UID. */
  predicate Presented(read: Option<string>) {
    Uid(read).Some? && Uid(read).value != []
  }

  /** Poll `i` is the first to present a card, and that card carries `known`. */
  predicate AcceptedAt(polls: seq<Option<string>>, known: string, i: int) {
    0 <= i < |polls| && Presented(polls[i]) && Uid(polls[i]).value == known &&
    forall j :: 0 <= j < i ==> !Presented(polls[j])
  }

  /** Some poll admits the known card before any other card is presented. */
  predicate CardAccepted(polls: seq<Option<string>>, known: string) {
    exists i :: 0 <= i < |polls| && AcceptedAt(polls, known, i)
  }

  /** `Accepted(i)`: the known card was presented at poll `i`; `Rejected(i, uid)`: a
      different card; `Waiting`: every poll was empty, so the source would still be
      spinning in its loop. */
  datatype Decision = Accepted(at: nat) | Rejected(at: nat, uid: string) | Waiting

  /** The wait loop over a finite run of polls.  `ledFired` counts the LED pulses:
      one when the known card is accepted, none otherwise. */
  method AwaitCard(polls: seq<Option<string>>, known: string) returns (d: Decision, ledFired: nat)
    ensures d == Waiting <==> forall i :: 0 <= i < |polls| ==> !Presented(polls[i])
    ensures d.Accepted? ==> d.at < |polls| && Presented(polls[d.at]) && Uid(polls[d.at]).value == known
    ensures d.Rejected? ==> d.at < |polls| && Presented(polls[d.at]) && Uid(polls[d.at]).value == d.uid != known
    ensures !d.Waiting? ==> forall i :: 0 <= i < d.at ==> !Presented(polls[i])
    ensures d.Accepted? <==> CardAccepted(polls, known)
    ensures ledFired == if d.Accepted? then 1 else 0
  {
    var i := 0;
    while i < |polls|
      invariant 0 <= i <= |polls|
      invariant forall j :: 0 <= j < i ==> !Presented(polls[j])
    {
      var uid := Uid(polls[i]);
      if uid.Some? && uid.value != [] {
        if uid.value == known {
          assert AcceptedAt(polls, known, i);
          return Accepted(i), 1;
        } else {
          assert forall j :: 0 <= j < |polls| && AcceptedAt(polls, known, j) ==> j == i;
          return Rejected(i, uid.value), 0;
        }
      }
      assert !Presented(polls[i]);
      i := i + 1;
    }
    return Waiting, 0;
  }

  /** Padding whitespace around the known UID on the serial line does not matter. */
  lemma PaddedKnownCardAccepted(a: string, b: string)
    requires AllSpace(a) && AllSpace(b)
    ensures Presented(Some(a + KnownUid + b)) && Uid(Some(a + KnownUid + b)) == Some(KnownUid)
  {
    StripPadded(a, KnownUid, b);
  }
}
