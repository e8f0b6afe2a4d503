/** Where the accepted requests of the virtual disks are, and how they move. */
module DiskLedger {
  import opened Dma

  datatype Kind = GetParams | Read | Write | Unknown

  datatype Message = Message(disknr: nat, kind: Kind, sector: nat, usertag: int,
    dma: seq<Descriptor>, physoffset: nat)

  /** The copy of an accepted message. The serial number stands for the identity of the object. */
  datatype Request = Request(serial: nat, msg: Message)

  datatype Status = DiskOk | DeviceError

  datatype Commit = Commit(disknr: nat, usertag: int, status: Status)

  /** In flight under the address of its packet, deferred, or announced by the i-th commit. */
  datatype Place = InFlight(address: nat) | Deferred | Committed(index: nat)

  datatype Ledger = Ledger(
    accepted: seq<Message>,      // in the order of acceptance
    place: seq<Place>,           // of each accepted message
    flying: map<nat, Request>,   // by address of the packet
    deferred: set<Request>,
    done: seq<nat>,              // the serial number behind each commit
    commits: seq<Commit>)
  {
    predicate IsRequest(r: Request) {
      r.serial < |accepted| && accepted[r.serial] == r.msg
    }

    predicate Placed(s: nat)
      requires s < |accepted| == |place|
    {
      var r := Request(s, accepted[s]);
      match place[s]
      case InFlight(a) => a in flying && flying[a] == r
      case Deferred => r in deferred
      case Committed(i) => i < |done| && done[i] == s
    }

    /** The commit carries the disk and the tag of the request behind it. */
    predicate Tagged(i: nat)
      requires i < |done| == |commits| && done[i] < |accepted|
    {
      commits[i].disknr == accepted[done[i]].disknr && commits[i].usertag == accepted[done[i]].usertag
    }

    /** Every accepted message is in one place, and no place holds anything else. */
    predicate Balanced() {
      && |place| == |accepted| && |commits| == |done|
      && (forall s | 0 <= s < |accepted| :: Placed(s))
      && (forall a <- flying :: IsRequest(flying[a]) && place[flying[a].serial] == InFlight(a))
      && (forall r <- deferred :: IsRequest(r) && place[r.serial] == Deferred)
      && (forall i | 0 <= i < |done| :: done[i] < |accepted| && place[done[i]] == Committed(i))
      && (forall i | 0 <= i < |done| :: done[i] < |accepted| && Tagged(i))
    }

    // ---------- the moves ----------

    /** A new message with a packet. */
    function Launch(msg: Message, a: nat): Ledger {
      this.(accepted := accepted + [msg], place := place + [InFlight(a)],
        flying := flying[a := Request(|accepted|, msg)])
    }

    /** A new message that has to wait for a packet. */
    function Defer(msg: Message): Ledger {
      this.(accepted := accepted + [msg], place := place + [Deferred],
        deferred := deferred + {Request(|accepted|, msg)})
    }

    /** A new message answered at once. */
    function Answer(msg: Message, status: Status): Ledger {
      this.(accepted := accepted + [msg], place := place + [Committed(|done|)],
        done := done + [|accepted|], commits := commits + [Commit(msg.disknr, msg.usertag, status)])
    }

    /** A deferred request gets its packet. */
    function Restart(r: Request, a: nat): Ledger {
      if r.serial >= |place| then this else
      this.(place := place[r.serial := InFlight(a)], flying := flying[a := r], deferred := deferred - {r})
    }

    /** The packet of a request comes back. */
    function Finish(a: nat, status: Status): Ledger {
      if a !in flying || flying[a].serial >= |place| then this else
      var r := flying[a];
      this.(place := place[r.serial := Committed(|done|)], flying := flying - {a}, done := done + [r.serial],
        commits := commits + [Commit(r.msg.disknr, r.msg.usertag, status)])
    }

    lemma LaunchBalances(msg: Message, a: nat)
      requires Balanced() && a !in flying
      ensures Launch(msg, a).Balanced()
    {
      var next := Launch(msg, a);
      forall s | 0 <= s < |next.accepted|
        ensures next.Placed(s)
      {
        if s < |accepted| {
          assert Placed(s);
        }
      }
      assert forall i | 0 <= i < |done| :: Tagged(i) ==> next.Tagged(i);
    }

    lemma DeferBalances(msg: Message)
      requires Balanced()
      ensures Defer(msg).Balanced()
    {
      var next := Defer(msg);
      forall s | 0 <= s < |next.accepted|
        ensures next.Placed(s)
      {
        if s < |accepted| {
          assert Placed(s);
        }
      }
      assert forall i | 0 <= i < |done| :: Tagged(i) ==> next.Tagged(i);
    }

    lemma AnswerBalances(msg: Message, status: Status)
      requires Balanced()
      ensures Answer(msg, status).Balanced()
    {
      var next := Answer(msg, status);
      forall s | 0 <= s < |next.accepted|
        ensures next.Placed(s)
      {
        if s < |accepted| {
          assert Placed(s);
        }
      }
      assert forall i | 0 <= i < |done| :: Tagged(i) ==> next.Tagged(i);
    }

    lemma RestartBalances(r: Request, a: nat)
      requires Balanced() && r in deferred && a !in flying
      ensures Restart(r, a).Balanced()
    {
      var next := Restart(r, a);
      forall s | 0 <= s < |next.accepted|
        ensures next.Placed(s)
      {
        RestartPlaces(r, a, s);
      }
      forall i | 0 <= i < |next.done|
        ensures next.done[i] < |next.accepted| && next.Tagged(i)
      {
        assert i < |done| ==> Tagged(i);
      }
    }

    lemma FinishPlaces(a: nat, status: Status, s: nat)
      requires Balanced() && a in flying && s < |accepted|
      ensures Finish(a, status).Placed(s)
    {
      assert Placed(s);
    }

    lemma RestartPlaces(r: Request, a: nat, s: nat)
      requires Balanced() && r in deferred && a !in flying && s < |accepted|
      ensures Restart(r, a).Placed(s)
    {
      assert Placed(s);
    }

    lemma FinishBalances(a: nat, status: Status)
      requires Balanced() && a in flying
      ensures Finish(a, status).Balanced()
    {
      var next := Finish(a, status);
      forall s | 0 <= s < |next.accepted|
        ensures next.Placed(s)
      {
        FinishPlaces(a, status, s);
      }
      forall i | 0 <= i < |next.done|
        ensures next.done[i] < |next.accepted| && next.Tagged(i)
      {
        assert i < |done| ==> Tagged(i);
      }
    }

    // ---------- what moves leave ----------

    /** Deferred requests have got packets, and nothing else has happened. */
    ghost predicate Resumes(later: Ledger) {
      && later.accepted == accepted && later.done == done && later.commits == commits
      && later.deferred <= deferred
      && (forall a <- flying :: a in later.flying && later.flying[a] == flying[a])
      && (forall r <- deferred :: r in later.deferred || later.Carries(r))
      && (forall a <- later.flying :: a in flying || later.flying[a] in deferred)
    }

    ghost predicate Carries(r: Request) {
      exists a <- flying :: flying[a] == r
    }

    lemma ResumesSelf()
      ensures Resumes(this)
    {
    }

    lemma RestartResumes(r: Request, a: nat)
      requires Balanced() && r in deferred && a !in flying
      ensures Resumes(Restart(r, a))
    {
      var next := Restart(r, a);
      assert next.flying[a] == r;
      assert next.Carries(r);
    }

    lemma ResumesTwice(middle: Ledger, later: Ledger)
      requires Resumes(middle) && middle.Resumes(later)
      ensures Resumes(later)
    {
      forall r <- deferred
        ensures r in later.deferred || later.Carries(r)
      {
        if r !in middle.deferred {
          assert middle.Carries(r);
          var a :| a in middle.flying && middle.flying[a] == r;
          assert later.flying[a] == r;
        }
      }
    }

    /** History is never rewritten. */
    predicate Extends(earlier: Ledger) {
      earlier.accepted <= accepted && earlier.commits <= commits && earlier.done <= done
    }

    /** What was committed stays so, by the same commit. */
    lemma CommitsStay(earlier: Ledger, s: nat)
      requires earlier.Balanced() && Balanced() && Extends(earlier) && s < |earlier.place|
      requires earlier.place[s].Committed?
      ensures s < |place| && place[s] == earlier.place[s]
    {
      assert earlier.Placed(s);
      var i := earlier.place[s].index;
      assert done[i] == s;
    }

    // ---------- what balance means ----------

    predicate IsFlying(s: nat) {
      exists a <- flying :: flying[a].serial == s
    }

    predicate IsDeferred(s: nat) {
      exists r <- deferred :: r.serial == s
    }

    predicate IsCommitted(s: nat) {
      s in done
    }

    /** In flight, deferred or committed, and never two of them. */
    predicate InOnePlace(s: nat) {
      && (IsFlying(s) || IsDeferred(s) || IsCommitted(s))
      && !(IsFlying(s) && IsDeferred(s)) && !(IsFlying(s) && IsCommitted(s)) && !(IsDeferred(s) && IsCommitted(s))
    }

    lemma ExactlyOnePlace(s: nat)
      requires Balanced() && s < |accepted|
      ensures InOnePlace(s)
    {
      assert Placed(s);
    }

    lemma DeferredPlaced(r: Request)
      requires Balanced() && r in deferred
      ensures r.serial < |place|
    {
    }

    lemma FlyingPlaced(a: nat)
      requires Balanced() && a in flying
      ensures flying[a].serial < |place|
    {
    }

    /** No request has two packets. */
    lemma OnePacketEach(a: nat, b: nat)
      requires Balanced() && a in flying && b in flying && flying[a].serial == flying[b].serial
      ensures a == b
    {
    }

    /** The accounts as a reader would put them. */
    ghost predicate InOrder() {
      && |commits| == |done|
      && (forall s | 0 <= s < |accepted| :: InOnePlace(s))
      && (forall i | 0 <= i < |done| :: done[i] < |accepted| && Tagged(i))
      && (forall i, j | 0 <= i < j < |done| :: done[i] != done[j])
    }

    lemma BalancedIsInOrder()
      requires Balanced()
      ensures InOrder()
    {
      forall s | 0 <= s < |accepted|
        ensures InOnePlace(s)
      {
        ExactlyOnePlace(s);
      }
    }

    /** No request is committed twice. */
    lemma CommittedOnce(i: nat, j: nat)
      requires Balanced() && i < |done| && j < |done| && done[i] == done[j]
      ensures i == j
    {
    }

    /** Once nothing is in flight or deferred, every accepted message has its one commit. */
    lemma QuietIsComplete()
      requires Balanced() && flying == map[] && deferred == {}
      ensures |commits| == |accepted|
      ensures forall s | 0 <= s < |accepted| :: s in done
    {
      forall s | 0 <= s < |accepted|
        ensures s in done
      {
        assert Placed(s);
      }
      Pigeons(done, |accepted|);
    }
  }

  /** A sequence without repetition that hits exactly the numbers below n has n members. */
  lemma {:induction false} Pigeons(xs: seq<nat>, n: nat)
    requires forall i, j | 0 <= i < j < |xs| :: xs[i] != xs[j]
    requires forall i | 0 <= i < |xs| :: xs[i] < n
    requires forall x | 0 <= x < n :: x in xs
    ensures |xs| == n
  {
    if n > 0 {
      assert n - 1 in xs;
      var k: nat :| k < |xs| && xs[k] == n - 1;
      var rest := xs[..k] + xs[k + 1..];
      assert |rest| == |xs| - 1;
      forall x | 0 <= x < n - 1
        ensures x in rest
      {
        assert x in xs;
        var j: nat :| j < |xs| && xs[j] == x;
        assert rest[if j < k then j else j - 1] == x;
      }
      assert forall j | 0 <= j < |rest| :: rest[j] == xs[if j < k then j else j + 1];
      Pigeons(rest, n - 1);
    } else if |xs| > 0 {
      AboveZero(xs, n);
    }
  }

  lemma AboveZero(xs: seq<nat>, n: nat)
    requires |xs| > 0 && forall i | 0 <= i < |xs| :: xs[i] < n
    ensures n > 0
  {
    assert xs[0] < n;
  }
}
