/** The bounded event queue between the radio worker and the GUI, with the observer's record of
    every event posted and of every event that left. */
module EventLedger {
  import opened Nfc

  const QUEUE_SIZE := 16

  /** TeslaKeyCardNfcEvent. */
  datatype Pending = Pending(event: NfcEvent, timeMs: nat)

  /** One call of the event callback; generation numbers the identity then served. */
  datatype Post = Post(pending: Pending, generation: nat, admitted: bool)

  datatype Exit = Consumed | Cleared

  datatype Departure = Departure(pending: Pending, exit: Exit)

  datatype Ledger = Ledger(posts: seq<Post>, gone: seq<Departure>)

  const NO_EVENTS := Ledger([], [])

  /** The posts that found room, in order. */
  function Accepted(posts: seq<Post>): seq<Post> {
    if posts == [] then []
    else
      var init, last := posts[..|posts| - 1], posts[|posts| - 1];
      if last.admitted then Accepted(init) + [last] else Accepted(init)
  }

  function Contents(posts: seq<Post>): (c: seq<Pending>)
    ensures |c| == |posts|
  {
    seq(|posts|, i requires 0 <= i < |posts| => posts[i].pending)
  }

  /** First in, first out: what was accepted is what left followed by what waits. */
  ghost predicate InOrder(accepted: seq<Post>, gone: seq<Departure>, queue: seq<Pending>) {
    && |accepted| == |gone| + |queue|
    && (forall i :: 0 <= i < |gone| ==> accepted[i].pending == gone[i].pending)
    && Contents(accepted[|gone|..]) == queue
  }

  /** And everything that waits was posted under this generation. */
  ghost predicate Explains(l: Ledger, queue: seq<Pending>, generation: nat) {
    var a := Accepted(l.posts);
    && |queue| <= QUEUE_SIZE
    && InOrder(a, l.gone, queue)
    && forall i :: |l.gone| <= i < |a| ==> a[i].generation == generation
  }

  function Posted(posts: seq<Post>, k: NfcEvent): nat {
    if posts == [] then 0
    else Posted(posts[..|posts| - 1], k) + if posts[|posts| - 1].pending.event == k then 1 else 0
  }

  function Dropped(posts: seq<Post>, k: NfcEvent): nat {
    if posts == [] then 0
    else
      Dropped(posts[..|posts| - 1], k)
      + if !posts[|posts| - 1].admitted && posts[|posts| - 1].pending.event == k then 1 else 0
  }

  /** Departures of one kind from position start on. */
  function Left(gone: seq<Departure>, exit: Exit, k: NfcEvent, start: nat): nat {
    if |gone| <= start then 0
    else
      var last := gone[|gone| - 1];
      Left(gone[..|gone| - 1], exit, k, start) + if last.exit == exit && last.pending.event == k then 1 else 0
  }

  function Waiting(queue: seq<Pending>, k: NfcEvent): nat {
    if queue == [] then 0
    else Waiting(queue[..|queue| - 1], k) + if queue[|queue| - 1].event == k then 1 else 0
  }

  lemma PostedGrows(posts: seq<Post>, p: Post, k: NfcEvent)
    ensures Posted(posts + [p], k) == Posted(posts, k) + if p.pending.event == k then 1 else 0
  {
    assert (posts + [p])[..|posts|] == posts;
  }

  lemma {:induction false} PostedIsAcceptedOrDropped(posts: seq<Post>, k: NfcEvent)
    ensures Posted(posts, k) == Posted(Accepted(posts), k) + Dropped(posts, k)
  {
    if posts != [] {
      var init, last := posts[..|posts| - 1], posts[|posts| - 1];
      PostedIsAcceptedOrDropped(init, k);
      PostedGrows(Accepted(init), last, k);
    }
  }

  /** Without the newest event, which waits or, with nothing waiting, was the last to leave. */
  lemma InOrderBefore(a: seq<Post>, gone: seq<Departure>, queue: seq<Pending>)
    requires InOrder(a, gone, queue) && a != []
    ensures var n := |a| - 1;
            if queue != [] then queue[|queue| - 1] == a[n].pending && InOrder(a[..n], gone, queue[..|queue| - 1])
            else gone[n].pending == a[n].pending && InOrder(a[..n], gone[..n], queue)
  {
    var n, g := |a| - 1, |gone|;
    if queue != [] {
      var m := |queue| - 1;
      assert a[..n][g..] == a[g..][..m] && a[g..][m] == a[n];
      assert Contents(a[g..])[m] == queue[m];
    } else {
      assert a[..n][n..] == [];
    }
  }

  lemma {:induction false} AcceptedIsGoneOrWaiting(a: seq<Post>, gone: seq<Departure>, queue: seq<Pending>, k: NfcEvent)
    requires InOrder(a, gone, queue)
    ensures Posted(a, k) == Left(gone, Consumed, k, 0) + Left(gone, Cleared, k, 0) + Waiting(queue, k)
    decreases |a|
  {
    assert |a| == |gone| + |queue|;
    hide InOrder;
    if a != [] {
      var n := |a| - 1;
      InOrderBefore(a, gone, queue);
      if queue != [] {
        AcceptedIsGoneOrWaiting(a[..n], gone, queue[..|queue| - 1], k);
      } else {
        AcceptedIsGoneOrWaiting(a[..n], gone[..n], queue, k);
      }
    }
  }

  /** Conservation, per kind of event: whatever was posted was consumed, cleared, dropped or is still waiting. */
  lemma EventsAreConserved(l: Ledger, queue: seq<Pending>, generation: nat, k: NfcEvent)
    requires Explains(l, queue, generation)
    ensures Posted(l.posts, k)
            == Left(l.gone, Consumed, k, 0) + Left(l.gone, Cleared, k, 0) + Waiting(queue, k) + Dropped(l.posts, k)
  {
    PostedIsAcceptedOrDropped(l.posts, k);
    AcceptedIsGoneOrWaiting(Accepted(l.posts), l.gone, queue, k);
  }

  /** Putting an event: it is accepted exactly when there is room. */
  lemma PutExplained(l: Ledger, queue: seq<Pending>, generation: nat, p: Pending)
    requires Explains(l, queue, generation)
    ensures var admitted := |queue| < QUEUE_SIZE;
            Explains(l.(posts := l.posts + [Post(p, generation, admitted)]),
                     if admitted then queue + [p] else queue, generation)
  {
    var admitted := |queue| < QUEUE_SIZE;
    var post := Post(p, generation, admitted);
    assert (l.posts + [post])[..|l.posts|] == l.posts;
    if admitted {
      var a, g := Accepted(l.posts), |l.gone|;
      assert (a + [post])[g..] == a[g..] + [post];
      assert Contents(a[g..] + [post]) == Contents(a[g..]) + [p];
    }
  }

  /** Taking the oldest event, for whatever reason. */
  lemma GetExplained(l: Ledger, queue: seq<Pending>, generation: nat, exit: Exit)
    requires Explains(l, queue, generation) && queue != []
    ensures Explains(l.(gone := l.gone + [Departure(queue[0], exit)]), queue[1..], generation)
  {
    var a, g := Accepted(l.posts), |l.gone|;
    assert Contents(a[g..])[0] == a[g].pending;
    assert a[g..][1..] == a[g + 1..];
    assert Contents(a[g + 1..]) == Contents(a[g..])[1..];
  }

  /** With nothing waiting, a new generation may begin. */
  lemma EmptyQueueExplained(l: Ledger, before: nat, after: nat)
    requires Explains(l, [], before)
    ensures Explains(l, [], after)
  {
  }

  /** One more departure counts once, under its own kind. */
  lemma LeftGrows(gone: seq<Departure>, d: Departure, exit: Exit, k: NfcEvent, start: nat)
    requires start <= |gone|
    ensures Left(gone + [d], exit, k, start)
            == Left(gone, exit, k, start) + if d.exit == exit && d.pending.event == k then 1 else 0
  {
    assert (gone + [d])[..|gone|] == gone;
  }
}
