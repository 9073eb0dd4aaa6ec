/**
 * Whole runs of a UDP server: a master and its clones that receive requests and cache
 * their replies.  The runs are first described on values, with what each cached reply
 * answers; then the cache and its transports are proved to follow that description.
 */
module ReplyRuns {
  import opened Bytes
  import opened ReplyCache

  /** A transport: the transaction id it has, and the call it is serving. */
  datatype Member = Member(xid: nat, serving: Call)

  /** A cached reply: the key it is filed under, its bytes, and the call it really answers. */
  datatype Label = Label(key: Key, bytes: seq<byte>, answers: Call)

  /** The buffer size, the call saved at the last miss, every reply filed so far, and the transports. */
  datatype Shared = Shared(iosz: nat, saved: Call, stored: seq<Label>, family: seq<Member>)

  datatype Step =
    | Recv(i: nat, xid: nat, call: Call, datagram: seq<byte>)    // a request arrives at a transport
    | Reply(i: nat, bytes: seq<byte>, sent: bool)                // a transport replies; `sent` if it all went out
    | Clone(i: nat)                                              // a transport is cloned with its request

  function Newest(ls: seq<Label>, key: Key): (r: Option<Label>)
    ensures r.Some? ==> r.value in ls && r.value.key == key
    ensures r.None? <==> forall l :: l in ls ==> l.key != key
  {
    if ls == [] then None
    else if ls[|ls| - 1].key == key then Some(ls[|ls| - 1])
    else
      assert ls == ls[..|ls| - 1] + [ls[|ls| - 1]];
      Newest(ls[..|ls| - 1], key)
  }

  /** No later label has the key. */
  lemma {:induction false} NewestIsNewest(ls: seq<Label>, key: Key)
    ensures Newest(ls, key).Some? ==>
      exists i :: 0 <= i < |ls| && ls[i] == Newest(ls, key).value && forall j :: i < j < |ls| ==> ls[j].key != key
  {
    if ls != [] && ls[|ls| - 1].key != key && Newest(ls, key).Some? {
      var older := ls[..|ls| - 1];
      NewestIsNewest(older, key);
      var i :| 0 <= i < |older| && older[i] == Newest(older, key).value
               && forall j :: i < j < |older| ==> older[j].key != key;
      assert ls[i] == older[i];
      forall j | i < j < |ls| ensures ls[j].key != key {
        assert j < |older| ==> ls[j] == older[j];
      }
    }
  }

  /** What the cache gives a request: the newest reply under its id and the saved call. */
  function Hit(size: nat, s: Shared, step: Step): (r: Option<Label>) {
    if step.Recv? && step.i < |s.family| then Newest(Last(size, s.stored), Key(step.xid, s.saved)) else None
  }

  /** The step is a reply that is cached. */
  predicate Cached(s: Shared, step: Step) {
    step.Reply? && step.i < |s.family| && |step.bytes| <= s.iosz && step.sent
  }

  /**
   * One step.  A step of a transport that is not there does nothing; a reply that does not
   * fit the buffer, or did not go out whole, is not cached.
   */
  function Next(size: nat, s: Shared, step: Step): (r: Shared)
    ensures s.stored <= r.stored && r.iosz == s.iosz
  {
    if step.i >= |s.family| then s
    else match step
      case Recv(i, xid, call, _) =>
        s.(saved := if Hit(size, s, step).Some? then s.saved else call,
           family := s.family[i := Member(xid, call)])
      case Reply(i, bytes, _) =>
        var m := s.family[i];
        if !Cached(s, step) then s
        else s.(stored := s.stored + [Label(Key(m.xid, s.saved), bytes, m.serving)])
      case Clone(i) => s.(family := s.family + [s.family[i]])
  }

  function Run(size: nat, s: Shared, steps: seq<Step>): (r: Shared)
    decreases steps
  {
    if steps == [] then s else Run(size, Next(size, s, steps[0]), steps[1..])
  }

  /** What each step of a run is given by the cache. */
  function Hits(size: nat, s: Shared, steps: seq<Step>): (hs: seq<Option<Label>>)
    ensures |hs| == |steps|
    decreases steps
  {
    if steps == [] then [] else [Hit(size, s, steps[0])] + Hits(size, Next(size, s, steps[0]), steps[1..])
  }

  /** At step k a transport that serves the label's call under its id gave the label's bytes as its reply. */
  ghost predicate Replied(size: nat, s: Shared, steps: seq<Step>, k: nat, l: Label)
    requires k < |steps|
  {
    var t, step := Run(size, s, steps[..k]), steps[k];
    Cached(t, step) && step.bytes == l.bytes && t.family[step.i] == Member(l.key.xid, l.answers)
  }

  /** Every reply in the cache was given by a transport that was serving the call it answers. */
  lemma {:induction false} StoredWasReplied(size: nat, s: Shared, steps: seq<Step>, l: Label)
    requires l in Run(size, s, steps).stored && l !in s.stored
    ensures exists k: nat :: k < |steps| && Replied(size, s, steps, k, l)
    decreases steps
  {
    var s1 := Next(size, s, steps[0]);
    if l in s1.stored {
      assert steps[..0] == [];
      assert Replied(size, s, steps, 0, l);
    } else {
      hide Next;
      StoredWasReplied(size, s1, steps[1..], l);
      var k: nat :| k < |steps[1..]| && Replied(size, s1, steps[1..], k, l);
      assert steps[..k + 1][1..] == steps[1..][..k];
      assert Replied(size, s, steps, k + 1, l);
    }
  }

  // -- who gets whose reply ---------------------------------------------------

  /** Every reply is filed under the call it answers. */
  ghost predicate Honest(ls: seq<Label>) {
    forall l :: l in ls ==> l.key.call == l.answers
  }

  /** A reply is cached while the saved call is still the one it answers. */
  predicate Prompt(s: Shared, step: Step) {
    Cached(s, step) ==> s.saved == s.family[step.i].serving
  }

  /** A request carries the saved call, or nothing is filed under its id and the saved call. */
  ghost predicate Settled(size: nat, s: Shared, step: Step) {
    step.Recv? && step.i < |s.family| ==>
      step.call == s.saved || forall l :: l in Last(size, s.stored) ==> l.key != Key(step.xid, s.saved)
  }

  /** What the cache gives a request answers that request. */
  predicate Right(size: nat, s: Shared, step: Step) {
    var h := Hit(size, s, step);
    h.Some? ==> h.value.answers == step.call
  }

  ghost predicate AllPrompt(size: nat, s: Shared, steps: seq<Step>)
    decreases steps
  {
    steps == [] || (Prompt(s, steps[0]) && AllPrompt(size, Next(size, s, steps[0]), steps[1..]))
  }

  ghost predicate AllSettled(size: nat, s: Shared, steps: seq<Step>)
    decreases steps
  {
    steps == [] || (Settled(size, s, steps[0]) && AllSettled(size, Next(size, s, steps[0]), steps[1..]))
  }

  ghost predicate AllRight(size: nat, s: Shared, steps: seq<Step>)
    decreases steps
  {
    steps == [] || (Right(size, s, steps[0]) && AllRight(size, Next(size, s, steps[0]), steps[1..]))
  }

  /** A reply is filed under the call it answers exactly when it is cached promptly. */
  lemma FiledHonestlyIff(size: nat, s: Shared, step: Step)
    requires Honest(s.stored)
    ensures Honest(Next(size, s, step).stored) <==> Prompt(s, step)
  {
    if Cached(s, step) {
      var all := Next(size, s, step).stored;
      assert all[|s.stored|] in all;
      assert forall l :: l in all ==> l in s.stored || l == all[|s.stored|];
    }
  }

  /** From an honest cache a request is given its own reply or none exactly when it is settled. */
  lemma AnsweredRightIff(size: nat, s: Shared, step: Step)
    requires Honest(s.stored)
    ensures Right(size, s, step) <==> Settled(size, s, step)
  {
    hide Last;
  }

  /** A request whose reply is in an honest cache is given it exactly when it carries the saved call. */
  lemma FoundIff(size: nat, s: Shared, step: Step)
    requires Honest(s.stored) && step.Recv? && step.i < |s.family|
    requires exists l :: l in Last(size, s.stored) && l.key == Key(step.xid, step.call)
    ensures Hit(size, s, step).Some? && Right(size, s, step) <==> step.call == s.saved
  {
    hide Last;
    if Hit(size, s, step).Some? {
      assert Hit(size, s, step).value in s.stored;
    }
  }

  lemma {:induction false} StoredGrows(size: nat, s: Shared, steps: seq<Step>)
    ensures s.stored <= Run(size, s, steps).stored
    decreases steps
  {
    if steps != [] {
      StoredGrows(size, Next(size, s, steps[0]), steps[1..]);
    }
  }

  /** Over any run the cache stays honest exactly when every reply is cached promptly. */
  lemma {:induction false} RunsFileHonestlyIff(size: nat, s: Shared, steps: seq<Step>)
    requires Honest(s.stored)
    ensures Honest(Run(size, s, steps).stored) <==> AllPrompt(size, s, steps)
    decreases steps
  {
    if steps != [] {
      var s' := Next(size, s, steps[0]);
      FiledHonestlyIff(size, s, steps[0]);
      hide Next, Prompt;
      if Honest(s'.stored) {
        RunsFileHonestlyIff(size, s', steps[1..]);
      } else {
        StoredGrows(size, s', steps[1..]);
        DishonestStays(s'.stored, Run(size, s', steps[1..]).stored);
      }
    }
  }

  lemma DishonestStays(ls: seq<Label>, more: seq<Label>)
    requires ls <= more && !Honest(ls)
    ensures !Honest(more)
  {
    var i :| 0 <= i < |ls| && ls[i].key.call != ls[i].answers;
    assert more[i] in more;
  }

  lemma {:induction false} PromptRunsAnswerRightIff(size: nat, s: Shared, steps: seq<Step>)
    requires Honest(s.stored) && AllPrompt(size, s, steps)
    ensures AllRight(size, s, steps) <==> AllSettled(size, s, steps)
    decreases steps
  {
    if steps != [] {
      FiledHonestlyIff(size, s, steps[0]);
      AnsweredRightIff(size, s, steps[0]);
      hide Next, Prompt, Right, Settled, Honest;
      PromptRunsAnswerRightIff(size, Next(size, s, steps[0]), steps[1..]);
    }
  }

  /**
   * Over any run of requests, replies and clones: every reply is filed under the call it
   * answers and every request that is given a reply is given its own, exactly when every
   * reply is prompt and every request settled.
   */
  lemma RunsServeRightIff(size: nat, s: Shared, steps: seq<Step>)
    requires Honest(s.stored)
    ensures Honest(Run(size, s, steps).stored) && AllRight(size, s, steps) <==>
            AllPrompt(size, s, steps) && AllSettled(size, s, steps)
  {
    RunsFileHonestlyIff(size, s, steps);
    if AllPrompt(size, s, steps) {
      PromptRunsAnswerRightIff(size, s, steps);
    }
  }

  // -- a server that serves one request at a time -----------------------------

  datatype Exchange = Exchange(i: nat, xid: nat, call: Call, datagram: seq<byte>, bytes: seq<byte>)

  function Exchanges(xs: seq<Exchange>): (steps: seq<Step>)
  {
    if xs == [] then []
    else [Recv(xs[0].i, xs[0].xid, xs[0].call, xs[0].datagram), Reply(xs[0].i, xs[0].bytes, true)] + Exchanges(xs[1..])
  }

  /** If it serves one request at a time, settled requests are enough and needed. */
  lemma OneAtATimeServesRightIff(size: nat, s: Shared, xs: seq<Exchange>)
    requires Honest(s.stored)
    ensures Honest(Run(size, s, Exchanges(xs)).stored) && AllRight(size, s, Exchanges(xs)) <==>
            AllSettled(size, s, Exchanges(xs))
  {
    RunsServeRightIff(size, s, Exchanges(xs));
    if AllSettled(size, s, Exchanges(xs)) {
      SettledIsPrompt(size, s, xs);
    }
  }

  lemma {:induction false} SettledIsPrompt(size: nat, s: Shared, xs: seq<Exchange>)
    requires AllSettled(size, s, Exchanges(xs))
    ensures AllPrompt(size, s, Exchanges(xs))
    decreases xs
  {
    if xs != [] {
      var steps, rest := Exchanges(xs), Exchanges(xs[1..]);
      var s1 := Next(size, s, steps[0]);
      assert steps[1..] == [steps[1]] + rest && steps[1..][1..] == rest;
      assert Prompt(s1, steps[1]) by {
        hide Last;
        assert steps[0].i < |s.family| ==> s1.saved == steps[0].call;
      }
      hide Next, Settled, Prompt;
      assert AllSettled(size, Next(size, s1, steps[1]), rest);
      SettledIsPrompt(size, Next(size, s1, steps[1]), xs[1..]);
      assert AllPrompt(size, s1, steps[1..]);
    }
  }

  /** The exchange goes through a transport there is, and its reply fits. */
  predicate Proper(s: Shared, x: Exchange) {
    x.i < |s.family| && |x.bytes| <= s.iosz
  }

  /**
   * The call is that of the exchange before it, or none of the last `size` exchanges has
   * its transaction id and the call before it.
   */
  ghost predicate Unmixed(size: nat, xs: seq<Exchange>, k: nat)
    requires k < |xs|
  {
    forall j: nat :: j < k <= j + size && xs[j].xid == xs[k].xid && xs[j].call == xs[k - 1].call ==>
      xs[k].call == xs[k - 1].call
  }

  /**
   * A server that replies to each request before the next one: whether it serves right
   * can be read off the list of requests.
   */
  lemma SequentialServesRightIff(size: nat, s: Shared, xs: seq<Exchange>)
    requires s.stored == [] && forall x :: x in xs ==> Proper(s, x)
    ensures Honest(Run(size, s, Exchanges(xs)).stored) && AllRight(size, s, Exchanges(xs)) <==>
            forall k: nat :: k < |xs| ==> Unmixed(size, xs, k)
  {
    OneAtATimeServesRightIff(size, s, xs);
    assert xs[0..] == xs;
    SettledIffUnmixed(size, s, xs, 0);
  }

  function LabelsOf(xs: seq<Exchange>): (ls: seq<Label>)
    ensures |ls| == |xs|
    ensures forall j :: 0 <= j < |xs| ==> ls[j] == Label(Key(xs[j].xid, xs[j].call), xs[j].bytes, xs[j].call)
  {
    seq(|xs|, j requires 0 <= j < |xs| => Label(Key(xs[j].xid, xs[j].call), xs[j].bytes, xs[j].call))
  }

  /** The first n exchanges are done, and each reply is filed under its own call. */
  ghost predicate Done(s: Shared, xs: seq<Exchange>, n: nat)
    requires n <= |xs|
  {
    s.stored == LabelsOf(xs[..n]) && (n > 0 ==> s.saved == xs[n - 1].call)
  }

  lemma {:induction false} SettledIffUnmixed(size: nat, s: Shared, xs: seq<Exchange>, n: nat)
    requires n <= |xs| && Done(s, xs, n) && forall x :: x in xs ==> Proper(s, x)
    ensures AllSettled(size, s, Exchanges(xs[n..])) <==> forall k: nat :: n <= k < |xs| ==> Unmixed(size, xs, k)
    decreases |xs| - n
  {
    if n < |xs| {
      hide Next, Unmixed, Done, Settled, Proper;
      var steps, rest := Exchanges(xs[n..]), Exchanges(xs[n + 1..]);
      assert xs[n..][1..] == xs[n + 1..] && xs[n] in xs;
      SettledNow(size, s, xs, n);
      TwoSettled(size, s, steps[0], steps[1], rest);
      if Settled(size, s, steps[0]) {
        var s2 := Next(size, Next(size, s, steps[0]), steps[1]);
        ExchangeSettled(size, s, xs, n);
        forall x | x in xs ensures Proper(s2, x) {
          SameProper(s, s2, x);
        }
        SettledIffUnmixed(size, s2, xs, n + 1);
      }
    }
  }

  lemma SameProper(s: Shared, s2: Shared, x: Exchange)
    requires |s2.family| == |s.family| && s2.iosz == s.iosz
    ensures Proper(s2, x) <==> Proper(s, x)
  {
  }

  lemma TwoSettled(size: nat, s: Shared, a: Step, b: Step, rest: seq<Step>)
    requires b.Reply?
    ensures AllSettled(size, s, [a, b] + rest) <==>
            Settled(size, s, a) && AllSettled(size, Next(size, Next(size, s, a), b), rest)
  {
    hide Next, Last;
    var steps := [a, b] + rest;
    assert steps[1..] == [b] + rest && ([b] + rest)[1..] == rest;
  }

  function RecvOf(x: Exchange): Step {
    Recv(x.i, x.xid, x.call, x.datagram)
  }

  /** A settled exchange files its reply under its own call. */
  lemma ExchangeSettled(size: nat, s: Shared, xs: seq<Exchange>, n: nat)
    requires n < |xs| && Done(s, xs, n) && Proper(s, xs[n]) && Settled(size, s, RecvOf(xs[n]))
    ensures var s2 := Next(size, Next(size, s, RecvOf(xs[n])), Reply(xs[n].i, xs[n].bytes, true));
            Done(s2, xs, n + 1) && |s2.family| == |s.family| && s2.iosz == s.iosz
  {
    hide Last;
    var x := xs[n];
    assert xs[..n + 1] == xs[..n] + [x];
    assert LabelsOf(xs[..n] + [x]) == LabelsOf(xs[..n]) + [Label(Key(x.xid, x.call), x.bytes, x.call)];
  }

  lemma SettledNow(size: nat, s: Shared, xs: seq<Exchange>, n: nat)
    requires n < |xs| && Done(s, xs, n) && Proper(s, xs[n])
    ensures Settled(size, s, RecvOf(xs[n])) <==> Unmixed(size, xs, n)
  {
    FiledLatelyIff(size, xs[..n], Key(xs[n].xid, s.saved));
    UnmixedIff(size, xs, n, s.saved);
    hide Last, LabelsOf, Unmixed, FiledLately;
  }

  /** One of the last exchanges has this id and this call. */
  ghost predicate FiledLately(size: nat, done: seq<Exchange>, key: Key) {
    exists j: nat :: j < |done| <= j + size && done[j].xid == key.xid && done[j].call == key.call
  }

  lemma FiledLatelyIff(size: nat, done: seq<Exchange>, key: Key)
    ensures (exists l :: l in Last(size, LabelsOf(done)) && l.key == key) <==> FiledLately(size, done, key)
  {
    hide Last;
    var all := LabelsOf(done);
    if l :| l in Last(size, all) && l.key == key {
      var j := LastFrom(size, all, l);
      assert done[j].xid == key.xid && done[j].call == key.call;
    }
    if FiledLately(size, done, key) {
      var j: nat :| j < |done| <= j + size && done[j].xid == key.xid && done[j].call == key.call;
      LastHas(size, all, j);
      assert all[j].key == key;
    }
  }

  lemma LastFrom<T>(size: nat, s: seq<T>, e: T) returns (j: nat)
    requires e in Last(size, s)
    ensures j < |s| <= j + size && s[j] == e
  {
    var ls := Last(size, s);
    var i :| 0 <= i < |ls| && ls[i] == e;
    j := |s| - |ls| + i;
  }

  lemma LastHas<T>(size: nat, s: seq<T>, j: nat)
    requires j < |s| <= j + size
    ensures s[j] in Last(size, s)
  {
    var ls := Last(size, s);
    assert ls[j - (|s| - |ls|)] == s[j];
  }

  lemma UnmixedIff(size: nat, xs: seq<Exchange>, n: nat, prev: Call)
    requires n < |xs| && (n > 0 ==> prev == xs[n - 1].call)
    ensures Unmixed(size, xs, n) <==>
            xs[n].call == prev || !FiledLately(size, xs[..n], Key(xs[n].xid, prev))
  {
    assert forall j: nat :: j < n ==> xs[..n][j] == xs[j];
  }

  // -- clients that do not reuse transaction ids ------------------------------

  /** Every id stands for one call: that of the book. */
  ghost predicate ByTheBook(s: Shared, book: nat -> Call) {
    && (forall l :: l in s.stored ==> l.answers == book(l.key.xid))
    && (forall m :: m in s.family ==> m.serving == book(m.xid))
  }

  lemma BookStep(size: nat, s: Shared, step: Step, book: nat -> Call)
    requires ByTheBook(s, book) && (step.Recv? ==> step.call == book(step.xid))
    ensures ByTheBook(Next(size, s, step), book) && Right(size, s, step)
  {
    hide Last;
    if step.i < |s.family| {
      var s' := Next(size, s, step);
      match step
      case Recv(i, xid, call, _) =>
        forall m | m in s'.family ensures m.serving == book(m.xid) {
          assert m in s.family || m == Member(xid, call);
        }
      case Reply(i, _, _) => assert s.family[i] in s.family;
      case Clone(i) => assert s.family[i] in s.family;
    }
  }

  /**
   * When no two different calls share a transaction id, every request that is given a
   * reply is given its own, in every run, however requests and replies are interleaved.
   */
  lemma {:induction false} UniqueIdsAnswerRight(size: nat, s: Shared, steps: seq<Step>, book: nat -> Call)
    requires ByTheBook(s, book)
    requires forall k :: 0 <= k < |steps| && steps[k].Recv? ==> steps[k].call == book(steps[k].xid)
    ensures AllRight(size, s, steps)
    decreases steps
  {
    if steps != [] {
      BookStep(size, s, steps[0], book);
      hide Next, ByTheBook, Right;
      UniqueIdsAnswerRight(size, Next(size, s, steps[0]), steps[1..], book);
    }
  }

  lemma RunStep(size: nat, s: Shared, step: Step, rest: seq<Step>)
    ensures Run(size, s, [step] + rest) == Run(size, Next(size, s, step), rest)
  {
    assert ([step] + rest)[1..] == rest;
  }

  // -- two runs that go wrong -------------------------------------------------

  /** One transport and an empty cache; nothing has been saved yet, so the saved call is anything. */
  function AtStart(iosz: nat, junk: Call): Shared {
    Shared(iosz, junk, [], [Member(0, junk)])
  }

  const ONE := Call(1, 1, 1, [10])
  const TWO := Call(2, 1, 1, [20])

  /** Not settled: a new call with the id of the last one is given its reply. */
  lemma StaleRun(junk: Call)
    ensures var s := Run(2, AtStart(8, junk), [Recv(0, 7, ONE, []), Reply(0, [5], true)]);
            && Honest(s.stored) && s.saved != TWO
            && Hit(2, s, Recv(0, 7, TWO, [])) == Some(Label(Key(7, ONE), [5], ONE))
            && !Right(2, s, Recv(0, 7, TWO, []))
  {
    var s0 := AtStart(8, junk);
    var steps := [Recv(0, 7, ONE, []), Reply(0, [5], true)];
    var s1 := Next(2, s0, steps[0]);
    assert s1 == Shared(8, ONE, [], [Member(7, ONE)]);
    var s2 := Next(2, s1, steps[1]);
    assert s2 == Shared(8, ONE, [Label(Key(7, ONE), [5], ONE)], [Member(7, ONE)]);
    RunStep(2, s1, steps[1], []);
    RunStep(2, s0, steps[0], [steps[1]]);
    assert steps == [steps[0]] + [steps[1]] && [steps[1]] == [steps[1]] + [];
    assert ONE.proc != TWO.proc;
  }

  /**
   * Not prompt: two calls with the same id are served at once, the reply to the first is
   * filed under the second, and the second is given it although it carries the saved call.
   */
  lemma CrossedRun(junk: Call)
    ensures var s := Run(2, AtStart(8, junk),
                         [Clone(0), Recv(0, 7, ONE, []), Recv(1, 7, TWO, []), Reply(0, [5], true)]);
            && !Honest(s.stored) && s.saved == TWO
            && Hit(2, s, Recv(1, 7, TWO, [])) == Some(Label(Key(7, TWO), [5], ONE))
            && !Right(2, s, Recv(1, 7, TWO, []))
  {
    var s0, m := AtStart(8, junk), Member(0, junk);
    var steps := [Clone(0), Recv(0, 7, ONE, []), Recv(1, 7, TWO, []), Reply(0, [5], true)];
    var s1 := Next(2, s0, steps[0]);
    assert s1 == Shared(8, junk, [], [m, m]);
    var s2 := Next(2, s1, steps[1]);
    assert s2 == Shared(8, ONE, [], [Member(7, ONE), m]);
    var s3 := Next(2, s2, steps[2]);
    assert s3 == Shared(8, TWO, [], [Member(7, ONE), Member(7, TWO)]);
    var s4 := Next(2, s3, steps[3]);
    var l := Label(Key(7, TWO), [5], ONE);
    assert s4 == Shared(8, TWO, [l], [Member(7, ONE), Member(7, TWO)]);
    RunStep(2, s3, steps[3], []);
    RunStep(2, s2, steps[2], [steps[3]] + []);
    RunStep(2, s1, steps[1], [steps[2]] + ([steps[3]] + []));
    RunStep(2, s0, steps[0], [steps[1]] + ([steps[2]] + ([steps[3]] + [])));
    assert steps == [steps[0]] + ([steps[1]] + ([steps[2]] + ([steps[3]] + [])));
    assert ONE.proc != TWO.proc;
    assert l in [l];
  }

  // -- the cache follows the description --------------------------------------

  /** An entry that is filed as the label says and whose buffer starts with its bytes. */
  ghost predicate Holds(e: Entry, l: Label)
    reads e.reply
  {
    && e.key == l.key && e.replylen == |l.bytes| <= e.reply.Length
    && e.reply[..e.replylen] == l.bytes
  }

  ghost predicate HoldAll(es: seq<Entry>, ls: seq<Label>)
    reads set e | e in es :: e.reply
  {
    |es| == |ls| && forall i :: 0 <= i < |es| ==> Holds(es[i], ls[i])
  }

  lemma HoldAllSet(size: nat, es: seq<Entry>, ls: seq<Label>, e: Entry, l: Label)
    requires size > 0 && HoldAll(es, ls) && Holds(e, l)
    ensures HoldAll(ListSet(size, es, e), ListSet(size, ls, l))
  {
    hide Holds;
  }

  /** The reply a lookup finds holds the bytes of the label it stands for. */
  lemma {:induction false} SameLookup(es: seq<Entry>, ls: seq<Label>, key: Key)
    requires HoldAll(es, ls)
    ensures ListGet(es, key).Some? <==> Newest(ls, key).Some?
    ensures ListGet(es, key).Some? ==> Holds(ListGet(es, key).value, Newest(ls, key).value)
  {
    if es != [] {
      assert Holds(es[|es| - 1], ls[|ls| - 1]);
      SameLookup(es[..|es| - 1], ls[..|ls| - 1], key);
    }
  }

  /** No transport works in a buffer that holds a cached reply. */
  lemma Apart(es: seq<Entry>, bufs: seq<array<byte>>, i: nat, iosz: nat)
    requires Owned(Replies(es) + bufs, iosz) && i < |bufs|
    ensures bufs[i].Length == iosz && forall e :: e in es ==> e.reply != bufs[i]
  {
    var all := Replies(es) + bufs;
    assert all[|es| + i] == bufs[i];
    forall k | 0 <= k < |es| ensures es[k].reply != bufs[i] {
      if es[k].reply == bufs[i] {
        assert all[k] == es[k].reply;
        TwiceCounts(all, k, |es| + i);
      }
    }
  }

  lemma TwiceCounts<T>(s: seq<T>, j: nat, k: nat)
    requires j < k < |s| && s[j] == s[k]
    ensures multiset(s)[s[j]] >= 2
  {
    assert s == s[..k] + s[k..];
    assert s[j] in s[..k] && s[k] == s[k..][0];
  }

  /** The cache holds the last of the replies that were filed, with their bytes. */
  ghost predicate Mirrors(cache: Cache, family: seq<Transport>, s: Shared)
    reads cache, family, set e | e in Entries(cache.cells) :: e.reply
  {
    && cache.saved == s.saved && |family| == |s.family|
    && (forall i :: 0 <= i < |family| ==> family[i].xid == s.family[i].xid)
    && HoldAll(Entries(cache.cells), Last(cache.size, s.stored))
  }

  /** The cache is in order, and every buffer has one owner. */
  ghost predicate Sound(cache: Cache, family: seq<Transport>, iosz: nat)
    reads cache, cache.entries, cache.fifo, Nodes(cache.cells), family
  {
    cache.Valid() && Family(family, iosz) && Owned(Buffers(cache.cells, family), iosz)
  }

  /** Writing to the buffer of a transport changes no cached reply. */
  method FillOne(cache: Cache, family: seq<Transport>, i: nat, bytes: seq<byte>, ghost s: Shared)
    returns (fits: bool)
    requires Sound(cache, family, s.iosz) && Mirrors(cache, family, s) && i < |family|
    modifies family[i].buf
    ensures Sound(cache, family, s.iosz) && Mirrors(cache, family, s)
    ensures (fits <==> |bytes| <= s.iosz) && family[i].buf.Length == s.iosz
    ensures fits ==> family[i].buf[..|bytes|] == bytes
    ensures forall e :: e in Entries(cache.cells) ==> e.reply[..] == old(e.reply[..])
  {
    hide Last, Owned, HoldAll, Cache.Valid, Entries;
    ghost var es := Entries(cache.cells);
    Apart(es, Bufs(family), i, s.iosz);
    assert forall n :: n in Nodes(cache.cells) ==> allocated(n);
    fits := family[i].Fill(bytes);
    assert Bufs(family) == old(Bufs(family));
  }

  /** A request overwrites the buffer of its transport; what is sent at once comes from the cache. */
  method OnRecv(cache: Cache, family: seq<Transport>, step: Step, ghost s: Shared)
    returns (sent: Option<seq<byte>>)
    requires Sound(cache, family, s.iosz) && Mirrors(cache, family, s)
    requires step.Recv? && step.i < |family|
    modifies cache`saved, family[step.i], family[step.i].buf
    ensures Sound(cache, family, s.iosz) && Mirrors(cache, family, Next(cache.size, s, step))
    ensures Hit(cache.size, s, step).Some? ==> sent == Some(Hit(cache.size, s, step).value.bytes)
    ensures Hit(cache.size, s, step).None? ==> sent.None?
    ensures var g := ListGet(old(Entries(cache.cells)), Key(step.xid, old(cache.saved)));
            if g.None? then sent.None?
            else g.value.replylen <= g.value.reply.Length && sent == Some(old(g.value.reply[..g.value.replylen]))
    ensures Buffers(cache.cells, family) == old(Buffers(cache.cells, family))
  {
    hide Last, Owned, ListGet, Newest, HoldAll, Cache.Valid, Entries;
    ghost var es := Entries(cache.cells);
    var fits := FillOne(cache, family, step.i, step.datagram, s);
    var hit := cache.Recv(family[step.i], step.xid, step.call);
    ListGetIsNewest(es, Key(step.xid, s.saved));
    SameLookup(es, Last(cache.size, s.stored), Key(step.xid, s.saved));
    assert Bufs(family) == old(Bufs(family));
    sent := None;
    if hit.Some? {
      sent := Some(hit.value.reply[..hit.value.replylen]);
    }
  }

  /** The cache takes the buffer with the reply. */
  method File(cache: Cache, family: seq<Transport>, step: Step, ghost s: Shared)
    requires Sound(cache, family, s.iosz) && Mirrors(cache, family, s)
    requires Cached(s, step) && step.i < |family| && s.iosz == family[step.i].buf.Length
    requires family[step.i].buf[..|step.bytes|] == step.bytes
    modifies cache`nextVictim, cache`cells, cache.entries, cache.fifo, Nodes(cache.cells), family[step.i]
    ensures Sound(cache, family, s.iosz) && Mirrors(cache, family, Next(cache.size, s, step))
    ensures Entries(cache.cells) ==
            ListSet(cache.size, old(Entries(cache.cells)),
                    Entry(Key(old(family[step.i].xid), cache.saved), old(family[step.i].buf), |step.bytes|))
    ensures forall n :: n in Nodes(cache.cells) ==> n in old(Nodes(cache.cells)) || fresh(n)
    ensures forall b :: b in Buffers(cache.cells, family) ==> b in old(Buffers(cache.cells, family)) || fresh(b)
    ensures old(multiset(Buffers(cache.cells, family))) <= multiset(Buffers(cache.cells, family))
  {
    hide Last, Owned, ListSet, HoldAll, Cache.Chains, Cache.Filled, Cache.Ring, Distinct, Entries, Buffers, Nodes;
    ghost var es, ls := Entries(cache.cells), Last(cache.size, s.stored);
    var x := family[step.i];
    ghost var e := Entry(Key(x.xid, cache.saved), x.buf, |step.bytes|);
    ghost var l := Label(Key(x.xid, cache.saved), step.bytes, s.family[step.i].serving);
    LastAdvances(cache.size, s.stored, l);
    SetByOne(cache, family, step.i, |step.bytes|, s.iosz);
    assert HoldAll(es, ls) && Holds(e, l);
    HoldAllSet(cache.size, es, ls, e, l);
  }

  /** A reply is written into the buffer of its transport, and the cache takes the buffer. */
  method OnReply(cache: Cache, family: seq<Transport>, step: Step, ghost s: Shared)
    requires Sound(cache, family, s.iosz) && Mirrors(cache, family, s)
    requires step.Reply? && step.i < |family|
    modifies cache`nextVictim, cache`cells, cache.entries, cache.fifo, Nodes(cache.cells)
    modifies family[step.i], family[step.i].buf
    ensures Sound(cache, family, s.iosz) && Mirrors(cache, family, Next(cache.size, s, step))
    ensures !step.sent || |step.bytes| > s.iosz ==> Entries(cache.cells) == old(Entries(cache.cells))
    ensures step.sent && |step.bytes| <= s.iosz ==>
      Entries(cache.cells) ==
      ListSet(cache.size, old(Entries(cache.cells)),
              Entry(Key(old(family[step.i].xid), cache.saved), old(family[step.i].buf), |step.bytes|))
    ensures forall n :: n in Nodes(cache.cells) ==> n in old(Nodes(cache.cells)) || fresh(n)
    ensures forall b :: b in Buffers(cache.cells, family) ==> b in old(Buffers(cache.cells, family)) || fresh(b)
    ensures old(multiset(Buffers(cache.cells, family))) <= multiset(Buffers(cache.cells, family))
  {
    assert |family| == |s.family|;
    hide Last, Sound, Mirrors, Buffers, Entries, Nodes;
    var fits := FillOne(cache, family, step.i, step.bytes, s);
    if fits && step.sent {
      File(cache, family, step, s);
    }
  }

  method OnClone(cache: Cache, family: seq<Transport>, step: Step, ghost s: Shared)
    returns (wider: seq<Transport>)
    requires Sound(cache, family, s.iosz) && Mirrors(cache, family, s)
    requires step.Clone? && step.i < |family|
    ensures Sound(cache, wider, s.iosz) && Mirrors(cache, wider, Next(cache.size, s, step))
    ensures forall x :: x in wider ==> x in family || fresh(x)
    ensures forall b :: b in Buffers(cache.cells, wider) ==> b in Buffers(cache.cells, family) || fresh(b)
    ensures multiset(Buffers(cache.cells, family)) <= multiset(Buffers(cache.cells, wider))
  {
    hide Last, Owned, HoldAll, Cache.Chains, Cache.Filled, Cache.Ring, Distinct, Entries;
    assert HoldAll(Entries(cache.cells), Last(cache.size, s.stored));
    wider := CloneOne(cache, family, step.i, s.iosz);
    SameBuffers(Buffers(cache.cells, family), Buffers(cache.cells, wider), wider[|family|].buf);
  }

  ghost function All(family: seq<Transport>): set<Transport> {
    set x | x in family
  }

  /** Every buffer, cached or in use. */
  ghost function Store(cells: seq<Cell>, family: seq<Transport>): set<array<byte>>
    reads family
  {
    set b | b in Buffers(cells, family)
  }

  /**
   * Any run of requests, replies and clones through any transports that share a cache:
   * what each request is sent from the cache are the very bytes of the reply the
   * description gives it, the cache ends up with the last replies that were filed, and
   * every buffer still has exactly one owner.
   */
  method Drive(cache: Cache, family: seq<Transport>, steps: seq<Step>, ghost s: Shared)
    returns (wider: seq<Transport>, sent: seq<Option<seq<byte>>>)
    requires Sound(cache, family, s.iosz) && Mirrors(cache, family, s)
    modifies cache`nextVictim, cache`cells, cache`saved, cache.entries, cache.fifo, Nodes(cache.cells)
    modifies All(family), Store(cache.cells, family)
    ensures Sound(cache, wider, s.iosz) && Mirrors(cache, wider, Run(cache.size, s, steps))
    ensures |sent| == |steps|
    ensures var hits := Hits(cache.size, s, steps);
            forall k :: 0 <= k < |steps| ==>
              && (hits[k].Some? ==> sent[k] == Some(hits[k].value.bytes))
              && (hits[k].None? ==> sent[k].None?)
    ensures forall n :: n in Nodes(cache.cells) ==> n in old(Nodes(cache.cells)) || fresh(n)
    ensures forall x :: x in All(wider) ==> x in All(family) || fresh(x)
    ensures forall b :: b in Store(cache.cells, wider) ==> b in old(Store(cache.cells, family)) || fresh(b)
    ensures old(multiset(Buffers(cache.cells, family))) <= multiset(Buffers(cache.cells, wider))
  {
    hide Sound, Mirrors, Next, Hit, Buffers, Store;
    ghost var now := s;
    ghost var want := Hits(cache.size, s, steps);
    wider, sent := family, [];
    var k := 0;
    while k < |steps|
      invariant 0 <= k <= |steps| && |sent| == k && now.iosz == s.iosz
      invariant Sound(cache, wider, s.iosz) && Mirrors(cache, wider, now)
      invariant Run(cache.size, now, steps[k..]) == Run(cache.size, s, steps)
      invariant want[k..] == Hits(cache.size, now, steps[k..])
      invariant forall j :: 0 <= j < k ==>
        (want[j].Some? ==> sent[j] == Some(want[j].value.bytes)) && (want[j].None? ==> sent[j].None?)
      invariant forall n :: n in Nodes(cache.cells) ==> n in old(Nodes(cache.cells)) || fresh(n)
      invariant forall x :: x in All(wider) ==> x in All(family) || fresh(x)
      invariant forall b :: b in Store(cache.cells, wider) ==> b in old(Store(cache.cells, family)) || fresh(b)
      invariant old(multiset(Buffers(cache.cells, family))) <= multiset(Buffers(cache.cells, wider))
    {
      assert steps[k..][1..] == steps[k + 1..];
      var one;
      wider, one := Act(cache, wider, steps[k], now);
      assert want[k] == want[k..][0] && want[k + 1..] == want[k..][1..];
      sent := sent + [one];
      now := Next(cache.size, now, steps[k]);
      k := k + 1;
    }
  }

  method Act(cache: Cache, family: seq<Transport>, step: Step, ghost s: Shared)
    returns (wider: seq<Transport>, sent: Option<seq<byte>>)
    requires Sound(cache, family, s.iosz) && Mirrors(cache, family, s)
    modifies cache`nextVictim, cache`cells, cache`saved, cache.entries, cache.fifo, Nodes(cache.cells)
    modifies All(family), Store(cache.cells, family)
    ensures Sound(cache, wider, s.iosz) && Mirrors(cache, wider, Next(cache.size, s, step))
    ensures Hit(cache.size, s, step).Some? ==> sent == Some(Hit(cache.size, s, step).value.bytes)
    ensures Hit(cache.size, s, step).None? ==> sent.None?
    ensures forall n :: n in Nodes(cache.cells) ==> n in old(Nodes(cache.cells)) || fresh(n)
    ensures forall x :: x in All(wider) ==> x in All(family) || fresh(x)
    ensures forall b :: b in Store(cache.cells, wider) ==> b in old(Store(cache.cells, family)) || fresh(b)
    ensures old(multiset(Buffers(cache.cells, family))) <= multiset(Buffers(cache.cells, wider))
  {
    assert |family| == |s.family|;
    wider, sent := family, None;
    if step.i >= |family| {
      return;
    }
    WorksInStore(cache.cells, family, step.i);
    hide Sound, Mirrors, Buffers;
    match step
    case Recv(_, _, _, _) => sent := OnRecv(cache, family, step, s);
    case Reply(_, _, _) => OnReply(cache, family, step, s);
    case Clone(_) => wider := OnClone(cache, family, step, s);
  }

  lemma WorksInStore(cells: seq<Cell>, family: seq<Transport>, i: nat)
    requires i < |family|
    ensures family[i] in All(family) && family[i].buf in Store(cells, family)
  {
    assert Buffers(cells, family)[|cells| + i] == family[i].buf;
  }

  lemma Starts(cache: Cache, x: Transport)
    requires cache.Valid() && cache.cells == [] && x.buf.Length == x.iosz && x.xid == 0
    ensures Sound(cache, [x], x.iosz) && Mirrors(cache, [x], AtStart(x.iosz, cache.saved))
    ensures Store(cache.cells, [x]) == {x.buf}
  {
    hide Cache.Valid;
    assert Buffers(cache.cells, [x]) == [x.buf];
  }

  /** A server from its start: what it sends from the cache is what the description says. */
  method Serve(size: nat, iosz: nat, steps: seq<Step>) returns (junk: Call, sent: seq<Option<seq<byte>>>)
    requires size > 0
    ensures |sent| == |steps|
    ensures var want := Hits(size, AtStart(iosz, junk), steps);
            forall k :: 0 <= k < |steps| ==>
              && (want[k].Some? ==> sent[k] == Some(want[k].value.bytes))
              && (want[k].None? ==> sent[k].None?)
  {
    hide Hits, Run, Cache.Valid, Sound, Mirrors, Store;
    var x := new Transport(iosz);
    var cache := new Cache(size);
    junk := cache.saved;
    Starts(cache, x);
    var wider;
    wider, sent := Drive(cache, [x], steps, AtStart(iosz, junk));
  }
}
