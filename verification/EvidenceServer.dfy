/** The request loop of the evidence service over an abstract core that stages effects while it
    handles a request and lands them only by a commit. */
module EvidenceServer {
  import opened Wrappers
  import C = Cancellation

  type Effect = nat

  /** The service core: what a request staged, and what has landed. */
  class Core {
    var pending: seq<Effect>
    var committed: seq<Effect>

    constructor ()
      ensures pending == [] && committed == []
    {
      pending, committed := [], [];
    }

    method Stage(effects: seq<Effect>)
      modifies this
      ensures pending == old(pending) + effects && committed == old(committed)
    {
      pending := pending + effects;
    }

    method CommitPending()
      modifies this
      ensures committed == old(committed) + old(pending) && pending == []
    {
      committed, pending := committed + pending, [];
    }

    method RollbackPending()
      modifies this
      ensures committed == old(committed) && pending == []
    {
      pending := [];
    }
  }

  /** The answer to a request: it cannot be encoded, or it can; then `hasReplacement` says whether the
      error that replaces an oversize page can be encoded. */
  datatype Answer = Unencodable | Encoded(text: string, hasReplacement: bool)

  /** One message off the wire and everything outside this loop that decides its fate: what handling
      it stages and answers (`None` for a message without an answer), whether `finish` reports it
      cancelled, and whether the write and flush of its answer succeed. */
  datatype Message =
    | ReadFailure
    | NotJson
    | Request(id: Option<nat>, staged: seq<Effect>, answer: Option<Answer>, cancelled: bool, written: bool)

  datatype Status = Ok | ReadFailed | InvalidJson | EncodeFailed | WriteFailed

  /** The page that leaves the server for a request. */
  datatype Page = Own(response: string) | Replaced

  predicate IsCancelled(m: Message)
    requires m.Request?
  {
    m.id.Some? && m.cancelled
  }

  predicate IsAnswered(m: Message) {
    m.Request? && m.answer.Some? && !IsCancelled(m)
  }

  /** The answer, or the error that is to replace it, cannot be encoded: the loop is left at once, with
      the request's effects still staged. */
  predicate Abandoned(m: Message, cap: nat) {
    IsAnswered(m) && (m.answer.value.Unencodable? || (|m.answer.value.text| > cap && !m.answer.value.hasReplacement))
  }

  /** The request's own response goes out: answered, not cancelled, within the cap, and written. */
  predicate Served(m: Message, cap: nat) {
    IsAnswered(m) && m.answer.value.Encoded? && |m.answer.value.text| <= cap && m.written
  }

  /** The message stops the loop. */
  predicate Stops(m: Message, cap: nat) {
    m.ReadFailure? || m.NotJson? || Abandoned(m, cap) || (IsAnswered(m) && !m.written)
  }

  /** How many messages are taken: up to and including the first that stops the loop. */
  function Taken(messages: seq<Message>, cap: nat): (n: nat)
    ensures n <= |messages|
    ensures forall i :: 0 <= i < n - 1 ==> !Stops(messages[i], cap)
    ensures n < |messages| ==> n > 0 && Stops(messages[n - 1], cap)
  {
    if messages == [] then 0 else if Stops(messages[0], cap) then 1 else 1 + Taken(messages[1..], cap)
  }

  /** The effects that land for a message: those of a request whose own response is served. */
  function Lands(m: Message, cap: nat): seq<Effect> {
    if Served(m, cap) then m.staged else []
  }

  /** The effects of the requests whose own response was served, in order. */
  function ServedEffects(messages: seq<Message>, cap: nat): seq<Effect> {
    if messages == [] then []
    else
      var last := |messages| - 1;
      ServedEffects(messages[..last], cap) + Lands(messages[last], cap)
  }

  lemma ServedEffectsSnoc(messages: seq<Message>, m: Message, cap: nat)
    ensures ServedEffects(messages + [m], cap) == ServedEffects(messages, cap) + Lands(m, cap)
  {
    hide Lands;
    assert (messages + [m])[..|messages|] == messages;
  }

  /** The page a message puts on the wire, if any. */
  function PageOf(m: Message, cap: nat): Option<Page> {
    if Served(m, cap) then Some(Own(m.answer.value.text))
    else if IsAnswered(m) && !Abandoned(m, cap) && m.written then Some(Replaced)
    else None
  }

  function Shows(m: Message, cap: nat): seq<Page> {
    match PageOf(m, cap) case None => [] case Some(page) => [page]
  }

  function PagesOf(messages: seq<Message>, cap: nat): seq<Page> {
    if messages == [] then []
    else
      var last := |messages| - 1;
      PagesOf(messages[..last], cap) + Shows(messages[last], cap)
  }

  /** Handle one message. Whatever its fate, nothing stays staged, unless the loop is left because an
      answer cannot be encoded; and then nothing lands. */
  method ServeOne(m: Message, core: Core, cap: nat) returns (status: Status, page: Option<Page>)
    requires core.pending == []
    modifies core
    ensures core.pending == if Abandoned(m, cap) then m.staged else []
    ensures core.committed == old(core.committed) + Lands(m, cap)
    ensures status.Ok? <==> !Stops(m, cap)
    ensures status.ReadFailed? <==> m.ReadFailure?
    ensures status.InvalidJson? <==> m.NotJson?
    ensures status.EncodeFailed? <==> Abandoned(m, cap)
    ensures page == PageOf(m, cap)
  {
    if m.ReadFailure? {
      return ReadFailed, None;
    }
    if m.NotJson? {
      return InvalidJson, None;
    }
    core.Stage(m.staged);
    if m.answer.None? {
      core.RollbackPending();
      return Ok, None;
    }
    if m.id.Some? && m.cancelled {
      core.RollbackPending();
      return Ok, None;
    }
    if m.answer.value.Unencodable? {
      return EncodeFailed, None;
    }
    var encoded := Own(m.answer.value.text);
    if |m.answer.value.text| > cap {
      if !m.answer.value.hasReplacement {
        return EncodeFailed, None;
      }
      encoded := Replaced;
      core.RollbackPending();
    }
    if m.written {
      core.CommitPending();
      return Ok, Some(encoded);
    }
    core.RollbackPending();
    return WriteFailed, None;
  }

  lemma TakenIs(messages: seq<Message>, i: nat, cap: nat)
    requires i < |messages| && Stops(messages[i], cap) && forall j :: 0 <= j < i ==> !Stops(messages[j], cap)
    ensures Taken(messages, cap) == i + 1
  {
    hide Stops;
  }

  lemma TakenAll(messages: seq<Message>, cap: nat)
    requires forall j :: 0 <= j < |messages| ==> !Stops(messages[j], cap)
    ensures Taken(messages, cap) == |messages|
  {
    hide Stops;
  }

  lemma NothingServed(cap: nat)
    ensures ServedEffects([], cap) == [] && PagesOf([], cap) == []
  {
  }

  lemma PagesOfSnoc(messages: seq<Message>, m: Message, cap: nat)
    ensures PagesOf(messages + [m], cap) == PagesOf(messages, cap) + Shows(m, cap)
  {
    hide Shows;
    assert (messages + [m])[..|messages|] == messages;
  }

  /** Over every run: between requests nothing is staged, and what has landed is, in order, exactly
      what the served requests staged. Only an answer that cannot be encoded leaves anything staged,
      and it ends the run. */
  method ServeRequests(messages: seq<Message>, core: Core, cap: nat) returns (status: Status, pages: seq<Page>)
    requires core.pending == []
    modifies core
    ensures !status.EncodeFailed? ==> core.pending == []
    ensures status.EncodeFailed? ==>
      var n := Taken(messages, cap);
      n > 0 && Abandoned(messages[n - 1], cap) && core.pending == messages[n - 1].staged
    ensures core.committed == old(core.committed) + ServedEffects(messages[..Taken(messages, cap)], cap)
    ensures pages == PagesOf(messages[..Taken(messages, cap)], cap)
    ensures status.Ok? <==> forall i :: 0 <= i < |messages| ==> !Stops(messages[i], cap)
  {
    hide Stops, Abandoned, Served, PagesOf, PageOf, ServedEffects, Taken;
    NothingServed(cap);
    assert messages[..0] == [];
    pages := [];
    for i := 0 to |messages|
      invariant core.pending == []
      invariant core.committed == old(core.committed) + ServedEffects(messages[..i], cap)
      invariant pages == PagesOf(messages[..i], cap)
      invariant forall j :: 0 <= j < i ==> !Stops(messages[j], cap)
    {
      ServedEffectsSnoc(messages[..i], messages[i], cap);
      PagesOfSnoc(messages[..i], messages[i], cap);
      assert messages[..i + 1] == messages[..i] + [messages[i]];
      var page;
      status, page := ServeOne(messages[i], core, cap);
      if page.Some? {
        pages := pages + [page.value];
      }
      if !status.Ok? {
        TakenIs(messages, i, cap);
        return;
      }
    }
    TakenAll(messages, cap);
    assert messages[..|messages|] == messages;
    status := Ok;
  }

  /** A page tells what landed: the request's own response goes out exactly if its effects land, it is not
      cancelled and its response fits; the replacing error goes out exactly for a response that does not
      fit, and nothing lands then. */
  lemma PageTellsFate(m: Message, cap: nat)
    requires m.Request?
    ensures match PageOf(m, cap)
            case Some(Own(response)) =>
              && Lands(m, cap) == m.staged && m.answer.Some? && m.answer.value.Encoded?
              && response == m.answer.value.text && |response| <= cap && m.written && !(m.id.Some? && m.cancelled)
            case Some(Replaced) =>
              && Lands(m, cap) == [] && m.answer.Some? && m.answer.value.Encoded? && m.answer.value.hasReplacement
              && |m.answer.value.text| > cap && m.written && !(m.id.Some? && m.cancelled)
            case None =>
              && Lands(m, cap) == []
              && (m.answer.None? || (m.id.Some? && m.cancelled) || !m.written || m.answer.value.Unencodable?
                  || (|m.answer.value.text| > cap && !m.answer.value.hasReplacement))
  {
  }

  // ----- with the cancellation protocol -----

  /** `finish` reported to the loop what the cancellation protocol decided. */
  ghost predicate Decided(m: Message, s: C.State) {
    m.Request? && m.id.Some? && m.id.value in s.outcomes && m.cancelled == s.outcomes[m.id.value].cancelled
  }

  /** In every interleaving, a request whose answer could be delivered is left unserved only if it was
      notified or the transport closed. */
  lemma UnservedHasCause(actions: seq<C.Action>, s: C.State, m: Message, cap: nat)
    requires C.Reaches(C.INITIAL, actions, s) && Decided(m, s)
    requires Served(m.(cancelled := false), cap)
    ensures !Served(m, cap) ==> C.Caused(s, m.id.value)
  {
    C.CancellationHasCause(actions, s);
  }

  /** In every interleaving, a notice that was kept early, or wholly observed while its request was
      served, keeps the request's page off the wire and its effects out, unless the transport is seen
      closed. */
  lemma NoticeSuppressesPage(actions: seq<C.Action>, s: C.State, m: Message, cap: nat)
    requires C.Reaches(C.INITIAL, actions, s) && Decided(m, s)
    requires m.id.value in s.early || m.id.value in s.observed
    ensures s.outcomes[m.id.value].sawClosed ||
      (PageOf(m, cap) == None && ServedEffects([m], cap) == [] && !Stops(m, cap))
  {
    C.NoticeIsNotLost(actions, s, m.id.value);
    hide C.Reaches;
    NothingServed(cap);
    ServedEffectsSnoc([], m, cap);
    assert [] + [m] == [m];
    if !s.outcomes[m.id.value].sawClosed {
      assert IsCancelled(m);
    }
  }

  // ----- a whole run -----

  /** The run's requests that have an id were all decided by one run of the protocol. */
  ghost predicate AllDecided(messages: seq<Message>, s: C.State) {
    forall i :: 0 <= i < |messages| && messages[i].Request? && messages[i].id.Some? ==> Decided(messages[i], s)
  }

  /** A notice for it was kept early or wholly observed, and the transport was not seen closed. */
  ghost predicate Suppressed(m: Message, s: C.State) {
    && Decided(m, s) && !s.outcomes[m.id.value].sawClosed
    && (m.id.value in s.early || m.id.value in s.observed)
  }

  /** Its answer could be delivered; and it was not notified nor did the transport close, or `finish`
      saw the transport closed, which is no cancellation. */
  ghost predicate Unhindered(m: Message, s: C.State, cap: nat) {
    && m.Request? && Served(m.(cancelled := false), cap)
    && (m.id.Some? ==> !C.Caused(s, m.id.value) || (Decided(m, s) && s.outcomes[m.id.value].sawClosed))
  }

  /** What has landed divides at any of the messages. */
  lemma {:induction false} EffectsSplit(messages: seq<Message>, k: nat, cap: nat)
    requires k < |messages|
    ensures ServedEffects(messages, cap)
         == ServedEffects(messages[..k], cap) + Lands(messages[k], cap) + ServedEffects(messages[k + 1..], cap)
    decreases |messages|
  {
    hide *;
    var init, last, after := messages[..|messages| - 1], messages[|messages| - 1], messages[k + 1..];
    assert messages == init + [last];
    ServedEffectsSnoc(init, last, cap);
    if k < |init| {
      EffectsSplit(init, k, cap);
      assert init[..k] == messages[..k] && init[k + 1..] + [last] == after;
      ServedEffectsSnoc(init[k + 1..], last, cap);
    } else {
      assert init == messages[..k] && after == [];
      NothingServed(cap);
    }
  }

  lemma {:induction false} PagesSplit(messages: seq<Message>, k: nat, cap: nat)
    requires k < |messages|
    ensures PagesOf(messages, cap) == PagesOf(messages[..k], cap) + Shows(messages[k], cap) + PagesOf(messages[k + 1..], cap)
    decreases |messages|
  {
    hide *;
    var init, last, after := messages[..|messages| - 1], messages[|messages| - 1], messages[k + 1..];
    assert messages == init + [last];
    PagesOfSnoc(init, last, cap);
    if k < |init| {
      PagesSplit(init, k, cap);
      assert init[..k] == messages[..k] && init[k + 1..] + [last] == after;
      PagesOfSnoc(init[k + 1..], last, cap);
    } else {
      assert init == messages[..k] && after == [];
      NothingServed(cap);
    }
  }

  /** Over every run and in every interleaving: a suppressed request leaves no page and no effect, the
      rest landing as if it had not been there; and an unhindered one lands what it staged and shows
      its own response, each in its place. */
  lemma NoticesDecideRun(actions: seq<C.Action>, s: C.State, messages: seq<Message>, cap: nat, k: nat)
    requires C.Reaches(C.INITIAL, actions, s) && AllDecided(messages[..Taken(messages, cap)], s)
    requires k < Taken(messages, cap)
    ensures
      var taken, m := messages[..Taken(messages, cap)], messages[k];
      var before, after := taken[..k], taken[k + 1..];
      && (Suppressed(m, s) ==>
          && ServedEffects(taken, cap) == ServedEffects(before, cap) + ServedEffects(after, cap)
          && PagesOf(taken, cap) == PagesOf(before, cap) + PagesOf(after, cap))
      && (Unhindered(m, s, cap) ==>
          && ServedEffects(taken, cap) == ServedEffects(before, cap) + m.staged + ServedEffects(after, cap)
          && PagesOf(taken, cap) == PagesOf(before, cap) + [Own(m.answer.value.text)] + PagesOf(after, cap))
  {
    hide *;
    var taken := messages[..Taken(messages, cap)];
    assert taken[k] == messages[k];
    EffectsSplit(taken, k, cap);
    PagesSplit(taken, k, cap);
    DecidedAt(taken, s, k);
    NoticesDecide(actions, s, messages[k], cap);
    if Suppressed(messages[k], s) {
      assert ServedEffects(taken[..k], cap) + [] == ServedEffects(taken[..k], cap);
      assert PagesOf(taken[..k], cap) + [] == PagesOf(taken[..k], cap);
    }
  }

  lemma DecidedAt(messages: seq<Message>, s: C.State, k: nat)
    requires AllDecided(messages, s) && k < |messages|
    ensures messages[k].Request? && messages[k].id.Some? ==> Decided(messages[k], s)
  {
  }

  lemma NoticesDecide(actions: seq<C.Action>, s: C.State, m: Message, cap: nat)
    requires C.Reaches(C.INITIAL, actions, s) && (m.Request? && m.id.Some? ==> Decided(m, s))
    ensures Suppressed(m, s) ==> Lands(m, cap) == [] && Shows(m, cap) == []
    ensures Unhindered(m, s, cap) ==> Lands(m, cap) == m.staged && Shows(m, cap) == [Own(m.answer.value.text)]
  {
    hide C.Reaches, C.Caused;
    if Suppressed(m, s) {
      C.NoticeIsNotLost(actions, s, m.id.value);
    }
    if Unhindered(m, s, cap) && m.id.Some? {
      UnservedHasCause(actions, s, m, cap);
      C.ClosedIsNotCancelled(actions, s);
    }
  }

  /** No two requests of the run stage the same effect. */
  ghost predicate OwnEffects(messages: seq<Message>) {
    forall i, j, e :: 0 <= i < j < |messages| && messages[i].Request? && messages[j].Request? && e in messages[i].staged ==>
      e !in messages[j].staged
  }

  lemma {:induction false} LandedFrom(messages: seq<Message>, e: Effect, cap: nat) returns (i: nat)
    requires e in ServedEffects(messages, cap)
    ensures i < |messages| && e in Lands(messages[i], cap)
    decreases |messages|
  {
    hide Lands;
    var last := |messages| - 1;
    if e in Lands(messages[last], cap) {
      i := last;
    } else {
      i := LandedFrom(messages[..last], e, cap);
    }
  }

  /** Where every effect has its own request, it lands exactly if that request is served. */
  lemma LandsIfServed(messages: seq<Message>, k: nat, e: Effect, cap: nat)
    requires OwnEffects(messages) && k < |messages| && messages[k].Request? && e in messages[k].staged
    ensures e in ServedEffects(messages, cap) <==> e in Lands(messages[k], cap)
  {
    EffectsSplit(messages, k, cap);
    hide Served, ServedEffects;
    if e in ServedEffects(messages, cap) {
      var i := LandedFrom(messages, e, cap);
      ServedIsRequest(messages[i], cap);
      assert i == k;
    }
  }

  lemma ServedIsRequest(m: Message, cap: nat)
    ensures Served(m, cap) ==> m.Request?
  {
  }

  /** Over every run, where every effect has its own request: what has landed holds no effect of a
      suppressed request, and every effect of an unhindered one. */
  lemma LandedEffects(actions: seq<C.Action>, s: C.State, messages: seq<Message>, cap: nat, k: nat, e: Effect)
    requires C.Reaches(C.INITIAL, actions, s) && AllDecided(messages[..Taken(messages, cap)], s)
    requires k < Taken(messages, cap) && messages[k].Request? && e in messages[k].staged
    requires OwnEffects(messages[..Taken(messages, cap)])
    ensures Suppressed(messages[k], s) ==> e !in ServedEffects(messages[..Taken(messages, cap)], cap)
    ensures Unhindered(messages[k], s, cap) ==> e in ServedEffects(messages[..Taken(messages, cap)], cap)
  {
    var taken := messages[..Taken(messages, cap)];
    hide C.Reaches, Taken, Lands, Shows, ServedEffects, Suppressed, Unhindered, Decided, OwnEffects;
    assert taken[k] == messages[k];
    LandsIfServed(taken, k, e, cap);
    NoticesDecide(actions, s, messages[k], cap);
  }

  // ----- effects and pages -----

  /** The request staged the effect, and its own response is among the run's pages. */
  ghost predicate StagedWithPage(messages: seq<Message>, i: int, e: Effect, cap: nat) {
    && 0 <= i < |messages| && messages[i].Request? && e in messages[i].staged
    && messages[i].answer.Some? && messages[i].answer.value.Encoded?
    && Own(messages[i].answer.value.text) in PagesOf(messages, cap)
  }

  /** The request's own response is the page, and all it staged is among what landed. */
  ghost predicate ShownWithEffects(messages: seq<Message>, i: int, response: string, cap: nat) {
    && 0 <= i < |messages| && messages[i].Request?
    && messages[i].answer.Some? && messages[i].answer.value.Encoded? && response == messages[i].answer.value.text
    && forall e :: e in messages[i].staged ==> e in ServedEffects(messages, cap)
  }

  /** Over every run: an effect that has landed was staged by a request whose own response is among the
      pages, and an own response among the pages is that of a request all of whose effects landed. */
  lemma EffectsHavePages(messages: seq<Message>, cap: nat)
    ensures forall e :: e in ServedEffects(messages, cap) ==> exists i :: StagedWithPage(messages, i, e, cap)
    ensures forall r :: Own(r) in PagesOf(messages, cap) ==> exists i :: ShownWithEffects(messages, i, r, cap)
  {
    hide Served, ServedEffects, PagesOf, PageOf, Lands, Shows;
    forall e | e in ServedEffects(messages, cap)
      ensures exists i :: StagedWithPage(messages, i, e, cap)
    {
      var i := LandedFrom(messages, e, cap);
      LandingMessage(messages[i], cap);
      PagesSplit(messages, i, cap);
      assert StagedWithPage(messages, i, e, cap);
    }
    forall r | Own(r) in PagesOf(messages, cap)
      ensures exists i :: ShownWithEffects(messages, i, r, cap)
    {
      var i := ShownFrom(messages, Own(r), cap);
      ShowingMessage(messages[i], r, cap);
      EffectsSplit(messages, i, cap);
      assert ShownWithEffects(messages, i, r, cap);
    }
  }

  lemma LandingMessage(m: Message, cap: nat)
    requires Lands(m, cap) != []
    ensures m.Request? && Lands(m, cap) == m.staged
    ensures m.answer.Some? && m.answer.value.Encoded? && Shows(m, cap) == [Own(m.answer.value.text)]
  {
  }

  lemma ShowingMessage(m: Message, response: string, cap: nat)
    requires Own(response) in Shows(m, cap)
    ensures m.Request? && m.answer.Some? && m.answer.value.Encoded? && response == m.answer.value.text
    ensures Lands(m, cap) == m.staged
  {
  }

  lemma {:induction false} ShownFrom(messages: seq<Message>, page: Page, cap: nat) returns (i: nat)
    requires page in PagesOf(messages, cap)
    ensures i < |messages| && page in Shows(messages[i], cap)
    decreases |messages|
  {
    hide Shows;
    var last := |messages| - 1;
    if page in Shows(messages[last], cap) {
      i := last;
    } else {
      i := ShownFrom(messages[..last], page, cap);
    }
  }
}
