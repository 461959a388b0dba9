/** Streaming a paginated listing. The server holds finitely many items, listed by ascending
    positive ID, and answers keyset requests (everything after an ID) and numbered pages. What it
    claims about a next page, which requests fail and when the context is done are arbitrary. */
module Pagination {
  import opened Prelude

  datatype Mode = Keyset | Page

  datatype Options = Options(mode: Mode, page: int, perPage: int, idAfter: int)

  /** What a request that succeeds says about the next page. */
  datatype Meta = Meta(hasNext: bool, hasLink: bool, nextIdAfter: int, nextPage: int)

  datatype Fault = Healthy | BadRequest | OtherFailure

  datatype Server = Server(ids: seq<int>, fault: nat -> Fault, meta: (nat, Options) -> Meta)

  datatype Failure = ContextDone | FetchFailed(request: nat)

  datatype StreamItem = Value(id: int) | Err(failure: Failure)

  ghost predicate Ascending(ids: seq<int>) {
    && (forall i :: 0 <= i < |ids| ==> ids[i] > 0)
    && forall i, j :: 0 <= i < j < |ids| ==> ids[i] < ids[j]
  }

  /** The items with an ID above `a`. */
  function After(ids: seq<int>, a: int): seq<int> {
    if ids == [] || ids[0] > a then ids else After(ids[1..], a)
  }

  function Drop(s: seq<int>, n: nat): seq<int> {
    if n <= |s| then s[n..] else []
  }

  function Take(s: seq<int>, n: nat): seq<int> {
    if n <= |s| then s[..n] else s
  }

  predicate Normalized(o: Options) {
    o.page >= 1 && o.perPage >= 1
  }

  /** The defaults StreamAll fills in. */
  function Normalize(o: Options): (r: Options)
    ensures Normalized(r)
  {
    o.(perPage := if o.perPage <= 0 then 100 else o.perPage, page := if o.page <= 0 then 1 else o.page)
  }

  /** What a request and all that follow it still have to deliver. */
  function Rest(ids: seq<int>, o: Options): seq<int>
    requires Normalized(o)
  {
    if o.mode == Keyset then After(ids, o.idAfter) else Drop(ids, PageStart(o.page, o.perPage))
  }

  function PageStart(page: int, perPage: int): nat
    requires page >= 1 && perPage >= 1
  {
    (page - 1) * perPage
  }

  /** The server's answer to one request. */
  function Items(ids: seq<int>, o: Options): seq<int>
    requires Normalized(o)
  {
    Take(Rest(ids, o), o.perPage)
  }

  /** The links are truthful: there is one whenever items remain, and it leads just past the page. */
  ghost predicate Honest(s: Server) {
    forall k: nat, o: Options :: Normalized(o) && Items(s.ids, o) != [] ==> HonestReply(s, k, o)
  }

  ghost predicate HonestReply(s: Server, k: nat, o: Options)
    requires Normalized(o) && Items(s.ids, o) != []
  {
    var m := s.meta(k, o);
    var items := Items(s.ids, o);
    var more := |Rest(s.ids, o)| > o.perPage;
    if o.mode == Keyset then
      && (more ==> m.hasNext && m.hasLink)
      && (m.hasNext && m.hasLink ==> m.nextIdAfter == items[|items| - 1])
    else
      && (more ==> m.hasNext)
      && (m.hasNext ==> m.nextPage == o.page + 1)
  }

  ghost function Values(out: seq<StreamItem>): seq<int> {
    if out == [] then []
    else
      var last := out[|out| - 1];
      Values(out[..|out| - 1]) + if last.Value? then [last.id] else []
  }

  ghost predicate AllValues(out: seq<StreamItem>) {
    forall x :: x in out ==> x.Value?
  }

  ghost function AsValues(ids: seq<int>): seq<StreamItem> {
    seq(|ids|, i requires 0 <= i < |ids| => Value(ids[i]))
  }

  // ---------------------------------------------------------------------------
  // Lemmas on the server
  // ---------------------------------------------------------------------------

  lemma {:induction false} AfterIsSuffix(ids: seq<int>, a: int, n: nat)
    requires Ascending(ids) && n < |ids| && a == ids[n]
    ensures After(ids, a) == ids[n + 1..]
  {
    if n == 0 {
      if |ids| > 1 { assert ids[1..][0] > a; }
    } else {
      AfterIsSuffix(ids[1..], a, n - 1);
    }
  }

  lemma {:induction false} AfterWithin(ids: seq<int>, a: int, k: nat)
    requires Ascending(ids) && 0 < k <= |After(ids, a)|
    ensures After(ids, After(ids, a)[k - 1]) == After(ids, a)[k..]
  {
    if ids[0] > a {
      AfterIsSuffix(ids, ids[k - 1], k - 1);
    } else {
      var tail := ids[1..];
      AfterWithin(tail, a, k);
      AfterMembers(tail, a);
      assert After(ids, a)[k - 1] in tail;
    }
  }

  /** What a keyset request selects: exactly the items with an ID above the cursor. */
  lemma {:induction false} AfterMembers(ids: seq<int>, a: int)
    requires Ascending(ids)
    ensures forall x :: x in After(ids, a) <==> x in ids && x > a
  {
    if ids != [] {
      assert ids == [ids[0]] + ids[1..];
      if ids[0] <= a {
        AfterMembers(ids[1..], a);
      }
    }
  }

  /** After the last item of a keyset page comes exactly what the page left over. */
  lemma KeysetAdvances(ids: seq<int>, o: Options, o': Options)
    requires Ascending(ids) && Normalized(o) && o.mode == Keyset && Items(ids, o) != []
    requires o' == o.(idAfter := Items(ids, o)[|Items(ids, o)| - 1])
    ensures Items(ids, o) + Rest(ids, o') == Rest(ids, o)
  {
    AfterWithin(ids, o.idAfter, |Items(ids, o)|);
  }

  lemma PageAdvances(ids: seq<int>, o: Options, o': Options)
    requires Normalized(o) && o.mode == Page && Items(ids, o) != []
    requires o' == o.(page := o.page + 1)
    ensures Items(ids, o) + Rest(ids, o') == Rest(ids, o)
  {
    var a := PageStart(o.page, o.perPage);
    PagesAdvance(o.page, o.perPage);
    assert ids[a..][..|Items(ids, o)|] == Items(ids, o);
  }

  lemma FirstPageIsAll(ids: seq<int>, o: Options)
    requires Normalized(o) && o.mode == Page && o.page == 1
    ensures Rest(ids, o) == ids
  {
    assert PageStart(1, o.perPage) == 0;
  }

  lemma KeysetFromStartIsAll(ids: seq<int>, o: Options)
    requires Ascending(ids) && Normalized(o) && o.mode == Keyset && o.idAfter <= 0
    ensures Rest(ids, o) == ids
  {
  }

  lemma {:induction false} ValuesOfAppend(out: seq<StreamItem>, id: int, f: Failure)
    ensures Values(out + [Value(id)]) == Values(out) + [id]
    ensures Values(out + [Err(f)]) == Values(out)
    ensures AllValues(out) ==> AllValues(out + [Value(id)])
  {
    assert (out + [Value(id)])[..|out|] == out;
    assert (out + [Err(f)])[..|out|] == out;
  }

  // ---------------------------------------------------------------------------
  // The streaming loop
  // ---------------------------------------------------------------------------

  /** What is left of the listing at most, for termination whatever the links say. */
  ghost function Remaining(ids: seq<int>, o: Options): nat {
    if o.mode == Keyset then
      if ids != [] && ids[|ids| - 1] > o.idAfter then ids[|ids| - 1] - o.idAfter else 0
    else
      if |ids| + 1 > o.page then |ids| + 1 - o.page else 0
  }

  lemma RemainingShrinks(ids: seq<int>, o: Options, o': Options)
    requires Ascending(ids) && Normalized(o) && Items(ids, o) != []
    requires o'.mode == o.mode
    requires if o.mode == Keyset then o'.idAfter > o.idAfter else o'.page > o.page
    ensures Remaining(ids, o') < Remaining(ids, o)
  {
    if o.mode == Keyset {
      AfterMembers(ids, o.idAfter);
      assert After(ids, o.idAfter)[0] in After(ids, o.idAfter);
      var i :| 0 <= i < |ids| && ids[i] == After(ids, o.idAfter)[0];
      assert i == |ids| - 1 || ids[i] < ids[|ids| - 1];
    } else {
      PagesAdvance(o.page, o.perPage);
    }
  }

  lemma CursorAdvances(ids: seq<int>, o: Options, m: Meta)
    requires Ascending(ids) && Normalized(o) && Items(ids, o) != [] && Next(o, m).Some?
    ensures var o' := Next(o, m).value;
            Normalized(o') && o'.mode == o.mode && Remaining(ids, o') < Remaining(ids, o)
  {
    RemainingShrinks(ids, o, Next(o, m).value);
  }

  lemma PagesAdvance(page: int, perPage: int)
    requires page >= 1 && perPage >= 1
    ensures PageStart(page, perPage) >= page - 1
    ensures PageStart(page + 1, perPage) == PageStart(page, perPage) + perPage
  {
    assert (page + 1 - 1) * perPage == (page - 1) * perPage + perPage;
    assert (page - 1) * (perPage - 1) >= 0;
  }

  /** Sends one page of items; `cancel(p)` says that the p-th look at the context finds it done, and
      there is one look before each item. */
  method Send(items: seq<int>, out: seq<StreamItem>, cancel: nat -> bool, polls: nat)
    returns (out': seq<StreamItem>, polls': nat, cancelled: bool)
    requires AllValues(out)
    ensures !cancelled ==>
              && AllValues(out') && Values(out') == Values(out) + items
              && polls' == polls + |items| && forall p: nat :: polls <= p < polls' ==> !cancel(p)
    ensures cancelled ==>
              && out' != [] && out'[|out'| - 1] == Err(ContextDone) && AllValues(out'[..|out'| - 1])
              && exists n: nat :: SentBeforeDone(items, out, out', cancel, polls, n)
  {
    out', polls', cancelled := out, polls, false;
    for n := 0 to |items|
      invariant AllValues(out') && Values(out') == Values(out) + items[..n]
      invariant polls' == polls + n && forall p: nat :: polls <= p < polls' ==> !cancel(p)
    {
      ValuesOfAppend(out', items[n], ContextDone);
      if cancel(polls') {
        assert (out' + [Err(ContextDone)])[..|out'|] == out';
        assert SentBeforeDone(items, out, out' + [Err(ContextDone)], cancel, polls, n);
        return out' + [Err(ContextDone)], polls' + 1, true;
      }
      polls' := polls' + 1;
      out' := out' + [Value(items[n])];
      assert items[..n + 1] == items[..n] + [items[n]];
    }
    assert items[..|items|] == items;
  }

  /** The first n items went out, and the look after that found the context done. */
  ghost predicate SentBeforeDone(items: seq<int>, out: seq<StreamItem>, out': seq<StreamItem>, cancel: nat -> bool, polls: nat, n: nat) {
    && n <= |items| && Values(out') == Values(out) + items[..n]
    && cancel(polls + n) && forall p: nat :: polls <= p < polls + n ==> !cancel(p)
  }

  /** What a run delivered, given where it began: `pre` was sent before a fallback to pages, and
      `base` is what the run as it then stands has to deliver. */
  ghost predicate Progress(s: Server, start: Options, o: Options, out: seq<StreamItem>, pre: seq<int>, fellBack: bool)
    requires Normalized(start) && Normalized(o)
  {
    && pre <= Rest(s.ids, start)
    && (fellBack ==> o.mode == Page && Values(out) + Rest(s.ids, o) == pre + s.ids)
    && (!fellBack ==> pre == [] && Values(out) + Rest(s.ids, o) == Rest(s.ids, start))
  }

  /** What a finished run promises about everything it sent. */
  ghost predicate Delivered(s: Server, start: Options, out: seq<StreamItem>, pre: seq<int>, fellBack: bool)
    requires Normalized(start)
  {
    && pre <= Rest(s.ids, start)
    && (fellBack ==> Values(out) <= pre + s.ids)
    && (!fellBack ==> Values(out) <= Rest(s.ids, start))
    && (AllValues(out) ==> Values(out) == if fellBack then pre + s.ids else Rest(s.ids, start))
  }

  /** The requests begin in the configured mode and change mode at most once, from keyset to page;
      a change starts over at page 1. */
  ghost predicate OneWay(trace: seq<Options>, fellBack: bool) {
    && (forall i, j :: 0 <= i < j < |trace| && trace[i].mode == Page ==> trace[j].mode == Page)
    && (!fellBack ==> forall i, j :: 0 <= i < j < |trace| ==> trace[i].mode == trace[j].mode)
    && (forall i :: 0 <= i < |trace| - 1 && trace[i].mode != trace[i + 1].mode ==> trace[i + 1].page == 1)
  }

  predicate FallsBack(autoFallback: bool, o: Options, f: Fault) {
    autoFallback && o.mode == Keyset && f == BadRequest
  }

  /** What the k-th request and its reply say about the request after it. */
  ghost predicate Succession(s: Server, auto: bool, k: nat, o: Options, o': Options)
    requires Normalized(o)
  {
    var m := s.meta(k, o);
    match s.fault(k)
    case Healthy =>
      && Items(s.ids, o) != [] && m.hasNext
      && (o.mode == Keyset ==> m.hasLink && 0 < m.nextIdAfter && o.idAfter < m.nextIdAfter && o' == o.(idAfter := m.nextIdAfter))
      && (o.mode == Page ==> o.page < m.nextPage && o' == o.(page := m.nextPage))
    case BadRequest => auto && o.mode == Keyset && o' == Options(Page, 1, o.perPage, 0)
    case OtherFailure => false
  }

  /** A reply after which there is no further request. */
  ghost predicate LastReply(s: Server, k: nat, o: Options)
    requires Normalized(o)
  {
    var m := s.meta(k, o);
    || Items(s.ids, o) == [] || !m.hasNext
    || (o.mode == Keyset && (!m.hasLink || m.nextIdAfter <= 0 || m.nextIdAfter <= o.idAfter))
    || (o.mode == Page && m.nextPage <= o.page)
  }

  lemma NextFollows(s: Server, auto: bool, k: nat, o: Options)
    requires Normalized(o) && s.fault(k) == Healthy && Items(s.ids, o) != []
    ensures var n := Next(o, s.meta(k, o));
            if n.Some? then Succession(s, auto, k, o, n.value) else LastReply(s, k, o)
  {
  }

  /** The cursor after a page that is not the last, or nothing when the loop's guards stop it. */
  function Next(o: Options, m: Meta): (r: Option<Options>)
    ensures r.Some? ==> r.value.mode == o.mode && r.value.perPage == o.perPage
    ensures r.Some? ==> if o.mode == Keyset then r.value.idAfter > o.idAfter && r.value.page == o.page else r.value.page > o.page
  {
    if o.mode == Keyset then
      if !m.hasNext || !m.hasLink then None
      else if m.nextIdAfter > 0 then
        if m.nextIdAfter <= o.idAfter then None else Some(o.(idAfter := m.nextIdAfter))
      else None
    else if !m.hasNext || m.nextPage <= o.page then None
    else Some(o.(page := m.nextPage))
  }

  /** An honest reply that ends the loop leaves nothing over, and one that continues it leads just
      past the page. */
  lemma HonestNext(s: Server, k: nat, o: Options)
    requires Ascending(s.ids) && Normalized(o) && Items(s.ids, o) != [] && HonestReply(s, k, o)
    ensures var n := Next(o, s.meta(k, o));
            Items(s.ids, o) + (if n.Some? then Rest(s.ids, n.value) else []) == Rest(s.ids, o)
  {
    var m := s.meta(k, o);
    var items := Items(s.ids, o);
    if o.mode == Keyset {
      LastIsAbove(s.ids, o);
      KeysetAdvances(s.ids, o, o.(idAfter := items[|items| - 1]));
    } else {
      PageAdvances(s.ids, o, o.(page := o.page + 1));
    }
  }

  lemma {:induction false} LastIsAbove(ids: seq<int>, o: Options)
    requires Ascending(ids) && Normalized(o) && o.mode == Keyset && Items(ids, o) != []
    ensures forall i :: 0 <= i < |Items(ids, o)| ==> Items(ids, o)[i] > o.idAfter && Items(ids, o)[i] > 0
  {
    AfterMembers(ids, o.idAfter);
    assert forall i :: 0 <= i < |Items(ids, o)| ==> Items(ids, o)[i] in After(ids, o.idAfter);
  }

  lemma {:induction false} EmptyPageEndsListing(ids: seq<int>, o: Options)
    requires Normalized(o) && Items(ids, o) == []
    ensures Rest(ids, o) == []
  {
  }

  /** What holds of the requests made so far when `o` is the next one. */
  ghost predicate Requests(s: Server, start: Options, autoFallback: bool, trace: seq<Options>, o: Options, fellBack: bool) {
    && (forall k: nat :: k < |trace| ==> Normalized(trace[k]) && Succession(s, autoFallback, k, trace[k], (trace + [o])[k + 1]))
    && (trace + [o])[0] == start && o.perPage == start.perPage
    && OneWay(trace + [o], fellBack)
    && (!fellBack ==> forall k: nat :: k < |trace| ==> s.fault(k) == Healthy)
    && (fellBack ==> o.mode == Page && start.mode == Keyset && autoFallback && FailedKeyset(s, trace))
  }

  ghost predicate FailedKeyset(s: Server, trace: seq<Options>) {
    exists k: nat :: k < |trace| && trace[k].mode == Keyset && s.fault(k) == BadRequest
  }

  lemma RequestSucceeds(s: Server, start: Options, auto: bool, trace: seq<Options>, o: Options, o': Options, fellBack: bool)
    requires Requests(s, start, auto, trace, o, fellBack) && s.fault(|trace|) == Healthy && o'.mode == o.mode
    requires Normalized(o) && Succession(s, auto, |trace|, o, o')
    ensures Requests(s, start, auto, trace + [o], o', fellBack)
  {
    hide Succession, OneWay, FailedKeyset;
    Succeeds(s, auto, trace, o, o');
    SuccessionKeepsSize(s, auto, |trace|, o, o');
    OneWayGoesOn(trace + [o], o', fellBack);
    StillFailed(s, trace, o);
    assert (trace + [o] + [o'])[0] == (trace + [o])[0];
  }

  lemma OneWayGoesOn(t: seq<Options>, o: Options, fellBack: bool)
    requires t != [] && OneWay(t, fellBack) && o.mode == t[|t| - 1].mode
    ensures OneWay(t + [o], fellBack)
  {
    assert forall i :: 0 <= i < |t| ==> (t + [o])[i] == t[i];
  }

  lemma OneWayFallsBack(t: seq<Options>, o: Options)
    requires t != [] && OneWay(t, false) && o.mode == Page && o.page == 1
    ensures OneWay(t + [o], true)
  {
    assert forall i :: 0 <= i < |t| ==> (t + [o])[i] == t[i];
  }

  lemma StillFailed(s: Server, trace: seq<Options>, o: Options)
    ensures FailedKeyset(s, trace) ==> FailedKeyset(s, trace + [o])
  {
    if FailedKeyset(s, trace) {
      var k: nat :| k < |trace| && trace[k].mode == Keyset && s.fault(k) == BadRequest;
      assert (trace + [o])[k] == trace[k];
    }
  }

  lemma Succeeds(s: Server, auto: bool, trace: seq<Options>, o: Options, o': Options)
    requires forall k: nat :: k < |trace| ==> Normalized(trace[k]) && Succession(s, auto, k, trace[k], (trace + [o])[k + 1])
    requires Normalized(o) && Succession(s, auto, |trace|, o, o')
    ensures var t := trace + [o];
            forall k: nat :: k < |t| ==> Normalized(t[k]) && Succession(s, auto, k, t[k], (t + [o'])[k + 1])
  {
    hide Succession;
    var t := trace + [o];
    assert (t + [o'])[|t|] == o' && t[|trace|] == o;
    assert forall i :: 0 <= i < |t| ==> (t + [o'])[i] == t[i];
    assert forall i :: 0 <= i < |trace| ==> t[i] == trace[i];
  }

  lemma SuccessionKeepsSize(s: Server, auto: bool, k: nat, o: Options, o': Options)
    requires Normalized(o) && Succession(s, auto, k, o, o')
    ensures o'.perPage == o.perPage
  {
  }

  lemma RequestFallsBack(s: Server, start: Options, auto: bool, trace: seq<Options>, o: Options, o': Options, fellBack: bool)
    requires Requests(s, start, auto, trace, o, fellBack) && FallsBack(auto, o, s.fault(|trace|))
    requires Normalized(o) && o' == o.(mode := Page, page := 1, idAfter := 0)
    ensures !fellBack && start.mode == Keyset
    ensures Requests(s, start, auto, trace + [o], o', true)
  {
    assert Succession(s, auto, |trace|, o, o');
    KeysetFirst(trace, o, fellBack);
    hide Succession, OneWay, FailedKeyset;
    Succeeds(s, auto, trace, o, o');
    OneWayFallsBack(trace + [o], o');
    RefusedNow(s, trace, o);
    assert (trace + [o] + [o'])[0] == (trace + [o])[0];
  }

  lemma KeysetFirst(trace: seq<Options>, o: Options, fellBack: bool)
    requires OneWay(trace + [o], fellBack) && o.mode == Keyset
    ensures (trace + [o])[0].mode == Keyset
  {
    assert (trace + [o])[|trace|] == o;
  }

  lemma RefusedNow(s: Server, trace: seq<Options>, o: Options)
    requires o.mode == Keyset && s.fault(|trace|) == BadRequest
    ensures FailedKeyset(s, trace + [o])
  {
    assert (trace + [o])[|trace|] == o;
  }

  /** From the progress made to what a run that ends now has delivered: `sent` is what the last
      request still sent, and an end without an error item left nothing over. */
  lemma Finished(s: Server, start: Options, o: Options, before: seq<StreamItem>, out: seq<StreamItem>,
                 sent: seq<int>, pre: seq<int>, fellBack: bool)
    requires Normalized(start) && Normalized(o) && Progress(s, start, o, before, pre, fellBack)
    requires Values(out) == Values(before) + sent && sent <= Rest(s.ids, o)
    requires AllValues(out) ==> sent == Rest(s.ids, o)
    ensures Delivered(s, start, out, pre, fellBack)
  {
    var total := Values(before) + Rest(s.ids, o);
    assert Values(out) <= total;
  }

  function AtMost(n: int, limit: int): int {
    if n <= limit then n else limit
  }

  ghost predicate FirstRefusal(s: Server, j: nat) {
    s.fault(j) == BadRequest && forall i: nat :: i < j ==> s.fault(i) == Healthy
  }

  /** How much n requests have delivered: full pages as far as the listing goes; after a refusal, once
      more from its beginning. */
  ghost predicate Counted(s: Server, start: Options, n: nat, out: seq<StreamItem>, pre: seq<int>, fellBack: bool)
    requires Normalized(start)
  {
    if !fellBack then |Values(out)| == AtMost(n * start.perPage, |Rest(s.ids, start)|)
    else exists j: nat :: j < n && FirstRefusal(s, j) && CountedFrom(s, start, n, out, pre, j)
  }

  ghost predicate CountedFrom(s: Server, start: Options, n: nat, out: seq<StreamItem>, pre: seq<int>, j: nat)
    requires Normalized(start) && j < n
  {
    && |pre| == AtMost(j * start.perPage, |Rest(s.ids, start)|)
    && |Values(out)| == |pre| + AtMost((n - j - 1) * start.perPage, |s.ids|)
  }

  lemma OnePageMore(n: nat, perPage: nat)
    ensures (n + 1) * perPage == n * perPage + perPage
  {
  }

  lemma CountPage(s: Server, start: Options, n: nat, o: Options, before: seq<StreamItem>, out: seq<StreamItem>,
                  pre: seq<int>, fellBack: bool)
    requires Normalized(start) && Normalized(o) && o.perPage == start.perPage
    requires Progress(s, start, o, before, pre, fellBack) && Counted(s, start, n, before, pre, fellBack)
    requires Values(out) == Values(before) + Items(s.ids, o)
    ensures Counted(s, start, n + 1, out, pre, fellBack)
  {
    hide Rest, Values, FirstRefusal;
    assert |Items(s.ids, o)| == AtMost(o.perPage, |Rest(s.ids, o)|);
    if fellBack {
      var j: nat :| j < n && FirstRefusal(s, j) && CountedFrom(s, start, n, before, pre, j);
      OnePageMore(n - j - 1, start.perPage);
      assert |Values(before)| + |Rest(s.ids, o)| == |pre| + |s.ids|;
      assert CountedFrom(s, start, n + 1, out, pre, j);
    } else {
      OnePageMore(n, start.perPage);
      assert |Values(before)| + |Rest(s.ids, o)| == |Rest(s.ids, start)|;
    }
  }

  lemma CountRefusal(s: Server, start: Options, n: nat, out: seq<StreamItem>)
    requires Normalized(start) && Counted(s, start, n, out, [], false) && FirstRefusal(s, n)
    ensures Counted(s, start, n + 1, out, Values(out), true)
  {
    hide Rest, Values, FirstRefusal;
    assert CountedFrom(s, start, n + 1, out, Values(out), n);
  }

  /** Adding the error item that ends a run. */
  lemma EndWithError(out: seq<StreamItem>, f: Failure)
    requires AllValues(out)
    ensures var out' := out + [Err(f)];
            AllValues(out'[..|out'| - 1]) && Values(out') == Values(out) && !AllValues(out') && out'[|out'| - 1] == Err(f)
  {
    ValuesOfAppend(out, 0, f);
    var out' := out + [Err(f)];
    assert out'[..|out|] == out;
    assert out'[|out|] in out';
  }

  /** What a page that was sent whole, and the reply's links, do to the progress. */
  lemma PageDone(s: Server, start: Options, k: nat, o: Options, before: seq<StreamItem>, out: seq<StreamItem>,
                 pre: seq<int>, fellBack: bool)
    requires Ascending(s.ids) && Honest(s)
    requires Normalized(start) && Normalized(o) && Progress(s, start, o, before, pre, fellBack)
    requires Values(out) == Values(before) + Items(s.ids, o)
    ensures var next := Next(o, s.meta(k, o));
            if Items(s.ids, o) == [] || next.None? then Delivered(s, start, out, pre, fellBack)
            else Normalized(next.value) && Progress(s, start, next.value, out, pre, fellBack)
  {
    hide Items, Rest, Next, Values, AllValues, Delivered;
    var items := Items(s.ids, o);
    var next := Next(o, s.meta(k, o));
    PageIsPrefix(s.ids, o);
    if items == [] {
      EmptyPageEndsListing(s.ids, o);
      Finished(s, start, o, before, out, items, pre, fellBack);
    } else {
      assert HonestReply(s, k, o);
      HonestNext(s, k, o);
      if next.None? {
        Finished(s, start, o, before, out, items, pre, fellBack);
      } else {
        assert Values(before) + (items + Rest(s.ids, next.value)) == Values(out) + Rest(s.ids, next.value);
      }
    }
  }

  lemma PageIsPrefix(ids: seq<int>, o: Options)
    requires Normalized(o)
    ensures Items(ids, o) <= Rest(ids, o)
  {
  }

  /** Each request follows from the one before it. */
  ghost predicate Obeys(s: Server, auto: bool, trace: seq<Options>) {
    && (forall k :: 0 <= k < |trace| ==> Normalized(trace[k]))
    && forall k :: 0 <= k < |trace| - 1 ==> Succession(s, auto, k, trace[k], trace[k + 1])
  }

  /** Why a run ends: the last reply names no further page, the context is done, or a request failed
      that is not a keyset request refused with 400 under auto-fallback. */
  ghost predicate EndsProperly(s: Server, autoFallback: bool, trace: seq<Options>, out: seq<StreamItem>) {
    var n := |trace| - 1;
    if AllValues(out) then n >= 0 && Normalized(trace[n]) && s.fault(n) == Healthy && LastReply(s, n, trace[n])
    else
      && AllValues(out[..|out| - 1]) && out[|out| - 1].Err?
      && match out[|out| - 1].failure
         case ContextDone => true
         case FetchFailed(k) =>
           k == n && s.fault(k) != Healthy && !(autoFallback && trace[k].mode == Keyset && s.fault(k) == BadRequest)
  }

  /** There is one look at the context before each request and each item; the first that finds it done
      ends the run. */
  ghost predicate Looks(cancel: nat -> bool, trace: seq<Options>, out: seq<StreamItem>) {
    var n := |trace| + |Values(out)|;
    && (forall p: nat :: p < n ==> !cancel(p))
    && (out != [] && out[|out| - 1] == Err(ContextDone) ==> cancel(n))
  }

  /** The state of a run between two requests. */
  ghost predicate Running(s: Server, start: Options, auto: bool, trace: seq<Options>, o: Options,
                          out: seq<StreamItem>, pre: seq<int>, fellBack: bool) {
    && Normalized(start) && Normalized(o) && AllValues(out)
    && Requests(s, start, auto, trace, o, fellBack)
    && (!fellBack ==> pre == [])
    && (s.fault(0) == BadRequest ==> pre == [])
    && (trace == [] ==> out == [])
    && (Honest(s) ==> Progress(s, start, o, out, pre, fellBack) && Counted(s, start, |trace|, out, pre, fellBack))
  }

  /** What a finished run promises; `pre` is what it had sent when it fell back. */
  ghost predicate Streamed(s: Server, start: Options, auto: bool, cancel: nat -> bool, trace: seq<Options>,
                           out: seq<StreamItem>, pre: seq<int>, fellBack: bool)
    requires Normalized(start)
  {
    && EndsProperly(s, auto, trace, out) && Obeys(s, auto, trace) && Looks(cancel, trace, out)
    && OneWay(trace, fellBack) && (trace != [] ==> trace[0] == start)
    && (fellBack ==> start.mode == Keyset && auto && FailedKeyset(s, trace))
    && (s.fault(0) == BadRequest ==> pre == [])
    && (!fellBack ==> pre == [] && forall k: nat :: k < |trace| - 1 ==> s.fault(k) == Healthy)
    && (Honest(s) ==> Delivered(s, start, out, pre, fellBack) && CountedInAll(s, start, trace, out, pre, fellBack))
  }

  /** All requests count unless the last one failed; a page cut short by the context does not. */
  ghost predicate CountedInAll(s: Server, start: Options, trace: seq<Options>, out: seq<StreamItem>, pre: seq<int>, fellBack: bool)
    requires Normalized(start)
  {
    && (AllValues(out) ==> Counted(s, start, |trace|, out, pre, fellBack))
    && (out != [] && out[|out| - 1].Err? && out[|out| - 1].failure.FetchFailed? && trace != [] ==>
          Counted(s, start, |trace| - 1, out, pre, fellBack))
  }

  /** The goroutine of StreamAll; `out` is all it sends. It terminates for every answer of the
      server: the measure is the mode, then what remains past the cursor. */
  method StreamLoop(s: Server, options: Options, autoFallback: bool, cancel: nat -> bool)
    returns (out: seq<StreamItem>, fellBack: bool, ghost pre: seq<int>, ghost trace: seq<Options>)
    requires Ascending(s.ids)
    ensures Streamed(s, Normalize(options), autoFallback, cancel, trace, out, pre, fellBack)
  {
    hide Ascending, Running, Streamed, Remaining, Values, Normalize;
    var o := Normalize(options);
    ghost var start := o;
    var polls := 0;
    var request := 0;
    out, fellBack, pre, trace := [], false, [], [];
    Beginning(s, start, autoFallback);
    while true
      invariant Normalized(o) && request == |trace|
      invariant Running(s, start, autoFallback, trace, o, out, pre, fellBack)
      invariant polls == |trace| + |Values(out)| && forall p: nat :: p < polls ==> !cancel(p)
      decreases o.mode == Keyset, Remaining(s.ids, o)
    {
      if cancel(polls) {
        EndCancelled(s, start, autoFallback, cancel, trace, o, out, pre, fellBack);
        out := out + [Err(ContextDone)];
        return;
      }
      polls := polls + 1;
      var fault := s.fault(request);
      if fault != Healthy {
        if FallsBack(autoFallback, o, fault) {
          FallingBack(s, start, autoFallback, trace, o, out, pre, fellBack);
          trace, request := trace + [o], request + 1;
          o := o.(mode := Page, page := 1, idAfter := 0);
          pre, fellBack := Values(out), true;
          continue;
        }
        EndFailed(s, start, autoFallback, cancel, trace, o, out, pre, fellBack);
        out, trace := out + [Err(FetchFailed(request))], trace + [o];
        return;
      }
      var next;
      out, polls, next := FetchPage(s, start, o, request, autoFallback, cancel, polls, out, pre, fellBack, trace);
      trace, request := trace + [o], request + 1;
      if next.None? {
        return;
      }
      o := next.value;
    }
  }

  /** One turn of the loop whose request succeeds: the page is sent, then the reply's links and the
      loop's guards decide whether there is another. */
  method FetchPage(s: Server, ghost start: Options, o: Options, request: nat, ghost auto: bool, cancel: nat -> bool,
                   polls: nat, out: seq<StreamItem>, ghost pre: seq<int>, ghost fellBack: bool, ghost trace: seq<Options>)
    returns (out': seq<StreamItem>, polls': nat, next: Option<Options>)
    requires Ascending(s.ids) && Normalized(start) && Normalized(o)
    requires request == |trace| && s.fault(request) == Healthy
    requires Running(s, start, auto, trace, o, out, pre, fellBack)
    requires polls == |trace| + |Values(out)| + 1 && forall p: nat :: p < polls ==> !cancel(p)
    ensures next.None? ==> Streamed(s, start, auto, cancel, trace + [o], out', pre, fellBack)
    ensures next.Some? ==>
              && Normalized(next.value)
              && Running(s, start, auto, trace + [o], next.value, out', pre, fellBack)
              && polls' == |trace| + 1 + |Values(out')| && (forall p: nat :: p < polls' ==> !cancel(p))
              && next.value.mode == o.mode && Remaining(s.ids, next.value) < Remaining(s.ids, o)
  {
    hide Progress, Delivered, Requests, OneWay, Values, AllValues, Honest, Rest, Items, Take, FailedKeyset, Remaining,
         Next, EndsProperly, Succession, LastReply, Obeys, Counted, SentBeforeDone;
    var items := Items(s.ids, o);
    var cancelled;
    out', polls', cancelled := Send(items, out, cancel, polls);
    LastRequest(s, start, auto, trace, o, fellBack);
    if cancelled {
      ghost var n: nat :| SentBeforeDone(items, out, out', cancel, polls, n);
      EndsCancelled(s, auto, cancel, trace + [o], items, out, out', polls, n);
      if Honest(s) {
        SentPartly(s, start, o, out, out', pre, fellBack, cancel, polls, n);
      }
      return out', polls', None;
    }
    if Honest(s) {
      PageDone(s, start, request, o, out, out', pre, fellBack);
      CountPage(s, start, request, o, out, out', pre, fellBack);
    }
    NothingFailed(out');
    if |items| == 0 {
      EndsComplete(s, auto, trace, o, out');
      return out', polls', None;
    }
    next := Next(o, s.meta(request, o));
    NextFollows(s, auto, request, o);
    if next.Some? {
      CursorAdvances(s.ids, o, s.meta(request, o));
      RequestSucceeds(s, start, auto, trace, o, next.value, fellBack);
    } else {
      EndsComplete(s, auto, trace, o, out');
    }
  }

  lemma NothingFailed(out: seq<StreamItem>)
    requires AllValues(out)
    ensures out != [] ==> out[|out| - 1].Value?
  {
    if out != [] {
      assert out[|out| - 1] in out;
    }
  }

  lemma EndsComplete(s: Server, auto: bool, trace: seq<Options>, o: Options, out: seq<StreamItem>)
    requires AllValues(out) && Normalized(o) && s.fault(|trace|) == Healthy
    requires Items(s.ids, o) == [] || LastReply(s, |trace|, o)
    ensures EndsProperly(s, auto, trace + [o], out)
  {
    assert (trace + [o])[|trace|] == o;
  }

  lemma EndsCancelled(s: Server, auto: bool, cancel: nat -> bool, trace: seq<Options>, items: seq<int>,
                      before: seq<StreamItem>, out: seq<StreamItem>, polls: nat, n: nat)
    requires SentBeforeDone(items, before, out, cancel, polls, n)
    requires polls == |trace| + |Values(before)| && forall p: nat :: p < polls ==> !cancel(p)
    requires out != [] && AllValues(out[..|out| - 1]) && out[|out| - 1] == Err(ContextDone)
    ensures EndsProperly(s, auto, trace, out) && Looks(cancel, trace, out)
  {
    hide Values;
    assert out[|out| - 1] in out;
  }

  /** The context is done when the loop looks. */
  lemma EndCancelled(s: Server, start: Options, auto: bool, cancel: nat -> bool, trace: seq<Options>, o: Options,
                     out: seq<StreamItem>, pre: seq<int>, fellBack: bool)
    requires Normalized(start) && Running(s, start, auto, trace, o, out, pre, fellBack)
    requires var p := |trace| + |Values(out)|; cancel(p) && forall q: nat :: q < p ==> !cancel(q)
    ensures Streamed(s, start, auto, cancel, trace, out + [Err(ContextDone)], pre, fellBack)
  {
    hide Progress, Delivered, Requests, OneWay, Values, AllValues, Honest, Rest, FailedKeyset, EndsProperly, Obeys, Counted;
    TraceEnds(s, start, auto, trace, o, fellBack);
    EndWithError(out, ContextDone);
    var out' := out + [Err(ContextDone)];
    EndsWithError(s, auto, trace, out');
    if Honest(s) {
      Finished(s, start, o, out, out', [], pre, fellBack);
    }
  }

  lemma EndsWithError(s: Server, auto: bool, trace: seq<Options>, out: seq<StreamItem>)
    requires out != [] && AllValues(out[..|out| - 1]) && !AllValues(out) && out[|out| - 1].Err?
    requires out[|out| - 1].failure.FetchFailed? ==>
               var n := |trace| - 1;
               && 0 <= n && out[|out| - 1] == Err(FetchFailed(n)) && s.fault(n) != Healthy
               && !(auto && trace[n].mode == Keyset && s.fault(n) == BadRequest)
    ensures EndsProperly(s, auto, trace, out)
  {
  }

  /** A request fails for good. */
  lemma EndFailed(s: Server, start: Options, auto: bool, cancel: nat -> bool, trace: seq<Options>, o: Options,
                  out: seq<StreamItem>, pre: seq<int>, fellBack: bool)
    requires Normalized(start) && Running(s, start, auto, trace, o, out, pre, fellBack)
    requires s.fault(|trace|) != Healthy && !FallsBack(auto, o, s.fault(|trace|))
    requires forall p: nat :: p < |trace| + |Values(out)| + 1 ==> !cancel(p)
    ensures Streamed(s, start, auto, cancel, trace + [o], out + [Err(FetchFailed(|trace|))], pre, fellBack)
  {
    hide Progress, Delivered, Requests, OneWay, Values, AllValues, Honest, Rest, FailedKeyset, EndsProperly, Obeys, Counted;
    LastRequest(s, start, auto, trace, o, fellBack);
    EndWithError(out, FetchFailed(|trace|));
    var out' := out + [Err(FetchFailed(|trace|))];
    assert (trace + [o])[|trace|] == o;
    EndsWithError(s, auto, trace + [o], out');
    if Honest(s) {
      Finished(s, start, o, out, out', [], pre, fellBack);
      CountsValues(s, start, |trace|, out, out', pre, fellBack);
    }
  }

  lemma CountsValues(s: Server, start: Options, n: nat, out: seq<StreamItem>, out': seq<StreamItem>, pre: seq<int>, fellBack: bool)
    requires Normalized(start) && Counted(s, start, n, out, pre, fellBack) && Values(out') == Values(out)
    ensures Counted(s, start, n, out', pre, fellBack)
  {
    if fellBack {
      var j: nat :| j < n && FirstRefusal(s, j) && CountedFrom(s, start, n, out, pre, j);
      assert CountedFrom(s, start, n, out', pre, j);
    }
  }

  /** A keyset request is refused with 400 and the run starts over with pages. */
  lemma FallingBack(s: Server, start: Options, auto: bool, trace: seq<Options>, o: Options,
                    out: seq<StreamItem>, pre: seq<int>, fellBack: bool)
    requires Normalized(start) && Running(s, start, auto, trace, o, out, pre, fellBack)
    requires FallsBack(auto, o, s.fault(|trace|))
    ensures Running(s, start, auto, trace + [o], o.(mode := Page, page := 1, idAfter := 0), out, Values(out), true)
  {
    hide Delivered, OneWay, FailedKeyset, Honest, Succession, Counted, Rest;
    var o' := o.(mode := Page, page := 1, idAfter := 0);
    RequestFallsBack(s, start, auto, trace, o, o', fellBack);
    FirstPageIsAll(s.ids, o');
    if s.fault(0) == BadRequest {
      assert trace == [];
    }
    if Honest(s) {
      CountRefusal(s, start, |trace|, out);
    }
  }

  lemma Beginning(s: Server, start: Options, auto: bool)
    requires Normalized(start)
    ensures Running(s, start, auto, [], start, [], [], false) && Values([]) == []
  {
  }

  lemma TraceEnds(s: Server, start: Options, auto: bool, trace: seq<Options>, o: Options, fellBack: bool)
    requires Requests(s, start, auto, trace, o, fellBack)
    ensures OneWay(trace, fellBack) && (trace != [] ==> trace[0] == start) && Obeys(s, auto, trace)
    ensures !fellBack ==> forall k: nat :: k < |trace| ==> s.fault(k) == Healthy
    ensures fellBack ==> start.mode == Keyset && auto && FailedKeyset(s, trace)
  {
    hide Succession;
    var t := trace + [o];
    assert forall i :: 0 <= i < |trace| ==> t[i] == trace[i];
  }

  lemma LastRequest(s: Server, start: Options, auto: bool, trace: seq<Options>, o: Options, fellBack: bool)
    requires Requests(s, start, auto, trace, o, fellBack) && Normalized(o)
    ensures OneWay(trace + [o], fellBack) && (trace + [o])[0] == start && Obeys(s, auto, trace + [o])
    ensures o.perPage == start.perPage
    ensures !fellBack ==> forall k: nat :: k < |trace| ==> s.fault(k) == Healthy
    ensures fellBack ==> start.mode == Keyset && auto && FailedKeyset(s, trace + [o])
  {
    hide Succession, OneWay, FailedKeyset;
    StillFailed(s, trace, o);
    var t := trace + [o];
    assert forall i :: 0 <= i < |trace| ==> t[i] == trace[i];
  }

  lemma SentPartly(s: Server, start: Options, o: Options, before: seq<StreamItem>, out: seq<StreamItem>, pre: seq<int>, fellBack: bool,
                   cancel: nat -> bool, polls: nat, n: nat)
    requires Normalized(start) && Normalized(o) && Progress(s, start, o, before, pre, fellBack)
    requires out != [] && out[|out| - 1] == Err(ContextDone)
    requires SentBeforeDone(Items(s.ids, o), before, out, cancel, polls, n)
    ensures Delivered(s, start, out, pre, fellBack) && CountedInAll(s, start, [], out, pre, fellBack) && !AllValues(out)
  {
    hide Counted;
    assert out[|out| - 1] in out;
    Finished(s, start, o, before, out, Items(s.ids, o)[..n], pre, fellBack);
  }

  // ---------------------------------------------------------------------------
  // What a consumer can rely on
  // ---------------------------------------------------------------------------

  /** Streaming from the beginning of the listing. */
  predicate FromStart(o: Options) {
    if o.mode == Keyset then o.idAfter <= 0 else o.page <= 1
  }

  /** A stream from the beginning that ends without an error item is the listing, each item once and
      in order, when nothing fell back or the very first request did; after a later fallback it is
      what had been sent followed by the whole listing. Either way it covers exactly the listing. */
  lemma StreamIsTheListing(s: Server, options: Options, auto: bool, cancel: nat -> bool, trace: seq<Options>,
                           out: seq<StreamItem>, pre: seq<int>, fellBack: bool)
    requires Ascending(s.ids) && Honest(s) && FromStart(options)
    requires Streamed(s, Normalize(options), auto, cancel, trace, out, pre, fellBack) && AllValues(out)
    ensures pre <= s.ids
    ensures out == AsValues(if fellBack then pre + s.ids else s.ids)
    ensures !fellBack || s.fault(0) == BadRequest ==> out == AsValues(s.ids)
    ensures forall id :: id in s.ids <==> Value(id) in out
  {
    hide *;
    StreamedValues(s, options, auto, cancel, trace, out, pre, fellBack);
    ValuesOnly(out);
    var all := if fellBack then pre + s.ids else s.ids;
    assert fellBack && pre == [] ==> all == s.ids;
    assert forall id :: id in all <==> id in s.ids;
    AsValuesCovers(all);
  }

  lemma StreamedValues(s: Server, options: Options, auto: bool, cancel: nat -> bool, trace: seq<Options>,
                       out: seq<StreamItem>, pre: seq<int>, fellBack: bool)
    requires Ascending(s.ids) && Honest(s) && FromStart(options)
    requires Streamed(s, Normalize(options), auto, cancel, trace, out, pre, fellBack) && AllValues(out)
    ensures pre <= s.ids && (!fellBack || s.fault(0) == BadRequest ==> pre == [])
    ensures Values(out) == if fellBack then pre + s.ids else s.ids
  {
    hide Honest, OneWay, EndsProperly, FailedKeyset, Values, AllValues;
    var start := Normalize(options);
    if start.mode == Keyset {
      KeysetFromStartIsAll(s.ids, start);
    } else {
      FirstPageIsAll(s.ids, start);
    }
  }

  lemma AsValuesCovers(ids: seq<int>)
    ensures forall id :: id in ids <==> Value(id) in AsValues(ids)
  {
    forall id | id in ids ensures Value(id) in AsValues(ids) {
      var i :| 0 <= i < |ids| && ids[i] == id;
      assert AsValues(ids)[i] == Value(id);
    }
  }

  lemma {:induction false} ValuesOnly(out: seq<StreamItem>)
    requires AllValues(out)
    ensures out == AsValues(Values(out))
  {
    if out != [] {
      ValuesOnly(out[..|out| - 1]);
    }
  }

  /** A run that is not cancelled, and in which only a keyset request is ever refused, has no error
      item. */
  lemma HealthyRunHasNoError(s: Server, start: Options, auto: bool, cancel: nat -> bool, trace: seq<Options>,
                             out: seq<StreamItem>, pre: seq<int>, fellBack: bool)
    requires Normalized(start) && Streamed(s, start, auto, cancel, trace, out, pre, fellBack)
    requires forall p: nat :: !cancel(p)
    requires forall k: nat :: k < |trace| && s.fault(k) != Healthy ==> auto && trace[k].mode == Keyset && s.fault(k) == BadRequest
    ensures AllValues(out)
  {
    hide OneWay, Delivered, Honest, Obeys, LastReply, Values, CountedInAll, EndsProperly, AllValues, Looks;
    NoErrorItem(s, auto, cancel, trace, out);
  }

  lemma NoErrorItem(s: Server, auto: bool, cancel: nat -> bool, trace: seq<Options>, out: seq<StreamItem>)
    requires EndsProperly(s, auto, trace, out) && Looks(cancel, trace, out)
    requires !cancel(|trace| + |Values(out)|)
    requires trace != [] ==>
               var n := |trace| - 1;
               s.fault(n) == Healthy || (auto && trace[n].mode == Keyset && s.fault(n) == BadRequest)
    ensures AllValues(out)
  {
    hide LastReply, Values;
  }

  // ---------------------------------------------------------------------------
  // Exactly what is streamed
  // ---------------------------------------------------------------------------

  /** The items of the first n full pages, as far as there are any. */
  function FirstPages(ids: seq<int>, n: nat, perPage: int): seq<int> {
    if 0 <= n * perPage < |ids| then ids[..n * perPage] else ids
  }

  /** Request m is the first to fail from request n on. */
  ghost predicate FirstFault(s: Server, n: nat, m: nat) {
    n <= m && s.fault(m) != Healthy && forall i: nat :: n <= i < m ==> s.fault(i) == Healthy
  }

  /** What goes out after `pre` when the requests from n on list everything, and m is the first of them
      to fail: the pages before it and its error, or everything if it is not needed. */
  ghost predicate PagesThenError(s: Server, perPage: int, out: seq<StreamItem>, pre: seq<int>, n: nat, m: nat)
    requires n <= m
  {
    || out == AsValues(pre + FirstPages(s.ids, m - n, perPage)) + [Err(FetchFailed(m))]
    || (n < m && (m - n) * perPage >= |s.ids| && out == AsValues(pre + s.ids))
  }

  /** What an uncancelled stream from the beginning sends, in terms of the requests that fail: `k` is
      the first of them. */
  ghost predicate StreamsExactly(s: Server, perPage: int, fallsBack: bool, out: seq<StreamItem>, k: nat) {
    if !(fallsBack && s.fault(k) == BadRequest) then PagesThenError(s, perPage, out, [], 0, k)
    else
      || (0 < k && k * perPage >= |s.ids| && out == AsValues(s.ids))
      || (var pre := FirstPages(s.ids, k, perPage);
          && ((forall i: nat :: k < i ==> s.fault(i) == Healthy) ==> out == AsValues(pre + s.ids))
          && UpToNextFault(s, perPage, out, pre, k + 1))
  }

  ghost predicate UpToNextFault(s: Server, perPage: int, out: seq<StreamItem>, pre: seq<int>, n: nat) {
    forall m: nat :: FirstFault(s, n, m) ==> PagesThenError(s, perPage, out, pre, n, m)
  }

  lemma PrefixIsFirstPages(ids: seq<int>, sent: seq<int>, n: nat, perPage: int)
    requires perPage >= 1 && sent <= ids && |sent| == AtMost(n * perPage, |ids|)
    ensures sent == FirstPages(ids, n, perPage)
  {
  }

  lemma MorePages(n: nat, m: nat, perPage: int)
    requires n <= m && perPage >= 1
    ensures n * perPage <= m * perPage
  {
  }

  /** A run without an error item and without a fallback. */
  lemma WholeListing(s: Server, options: Options, auto: bool, cancel: nat -> bool, trace: seq<Options>,
                     out: seq<StreamItem>, pre: seq<int>, k: nat)
    requires Ascending(s.ids) && Honest(s) && FromStart(options) && FirstFault(s, 0, k)
    requires Streamed(s, Normalize(options), auto, cancel, trace, out, pre, false) && AllValues(out)
    ensures 0 < k && k * Normalize(options).perPage >= |s.ids| && out == AsValues(s.ids)
  {
    hide Delivered, OneWay, Obeys, LastReply, Values, AllValues, Looks, Honest, Rest;
    StreamIsTheListing(s, options, auto, cancel, trace, out, pre, false);
    StreamedValues(s, options, auto, cancel, trace, out, pre, false);
    StartsAtAll(s.ids, options);
    assert k >= |trace|;
    MorePages(|trace|, k, Normalize(options).perPage);
  }

  lemma StartsAtAll(ids: seq<int>, options: Options)
    requires Ascending(ids) && FromStart(options)
    ensures Rest(ids, Normalize(options)) == ids
  {
    var start := Normalize(options);
    if start.mode == Keyset {
      KeysetFromStartIsAll(ids, start);
    } else {
      FirstPageIsAll(ids, start);
    }
  }

  predicate EndsInFailure(out: seq<StreamItem>) {
    out != [] && out[|out| - 1].Err? && out[|out| - 1].failure.FetchFailed?
  }

  /** Where a run that fell back did so, and what it had sent. */
  lemma Refused(s: Server, options: Options, auto: bool, cancel: nat -> bool, trace: seq<Options>,
                out: seq<StreamItem>, pre: seq<int>, k: nat)
    requires Ascending(s.ids) && Honest(s) && FromStart(options) && FirstFault(s, 0, k)
    requires Streamed(s, Normalize(options), auto, cancel, trace, out, pre, true)
    requires AllValues(out) || EndsInFailure(out)
    ensures var P, n := Normalize(options).perPage, if AllValues(out) then |trace| else |trace| - 1;
            && auto && options.mode == Keyset && s.fault(k) == BadRequest && k < n && P >= 1
            && pre == FirstPages(s.ids, k, P)
            && |Values(out)| == |pre| + AtMost((n - k - 1) * P, |s.ids|)
            && forall i: nat :: k < i < n ==> s.fault(i) == Healthy
  {
    hide OneWay, LastReply, Values, AllValues, Looks, Honest, Rest, Obeys;
    StartsAtAll(s.ids, options);
    var start := Normalize(options);
    var n := if AllValues(out) then |trace| else |trace| - 1;
    var j: nat :| j < n && FirstRefusal(s, j) && CountedFrom(s, start, n, out, pre, j);
    assert j == k;
    PrefixIsFirstPages(s.ids, pre, k, start.perPage);
    forall i: nat | k < i < n ensures s.fault(i) == Healthy {
      OnlyOneRefusal(s, auto, trace, j, i);
    }
  }

  /** After a refused request the mode is page, so no other one is refused and followed. */
  lemma OnlyOneRefusal(s: Server, auto: bool, trace: seq<Options>, j: nat, i: nat)
    requires Obeys(s, auto, trace) && OneWay(trace, true)
    requires j < i < |trace| && s.fault(j) == BadRequest
    requires i < |trace| - 1 || s.fault(i) == Healthy
    ensures s.fault(i) == Healthy
  {
    assert Succession(s, auto, j, trace[j], trace[j + 1]);
    assert trace[j + 1].mode == Page;
    if i < |trace| - 1 {
      assert trace[i].mode == Page;
      assert Succession(s, auto, i, trace[i], trace[i + 1]);
    }
  }

  /** An error item after the values that went out. */
  lemma ValuesThenError(out: seq<StreamItem>)
    requires out != [] && AllValues(out[..|out| - 1]) && out[|out| - 1].Err?
    ensures out == AsValues(Values(out)) + [out[|out| - 1]]
  {
    hide Values, AllValues, AsValues;
    var init, f := out[..|out| - 1], out[|out| - 1].failure;
    assert out == init + [Err(f)];
    ValuesOnly(init);
    ValuesOfAppend(init, 0, f);
  }

  lemma {:induction false} StreamIsExact(s: Server, options: Options, auto: bool, cancel: nat -> bool, trace: seq<Options>,
                      out: seq<StreamItem>, pre: seq<int>, fellBack: bool, k: nat)
    requires Ascending(s.ids) && Honest(s) && FromStart(options) && FirstFault(s, 0, k)
    requires Streamed(s, Normalize(options), auto, cancel, trace, out, pre, fellBack)
    requires forall p: nat :: !cancel(p)
    ensures StreamsExactly(s, Normalize(options).perPage, auto && options.mode == Keyset, out, k)
  {
    hide *;
    if AllValues(out) {
      if fellBack {
        FellBackAndFinished(s, options, auto, cancel, trace, out, pre, k);
      } else {
        WholeListing(s, options, auto, cancel, trace, out, pre, k);
        FinishedFits(s, Normalize(options).perPage, auto && options.mode == Keyset, out, k);
      }
    } else {
      NotCancelled(s, options, auto, cancel, trace, out, pre, fellBack);
      if fellBack {
        FellBackAndFailed(s, options, auto, cancel, trace, out, pre, k);
      } else {
        FailedAtOnce(s, options, auto, cancel, trace, out, pre, k);
      }
    }
  }

  lemma NotCancelled(s: Server, options: Options, auto: bool, cancel: nat -> bool, trace: seq<Options>,
                     out: seq<StreamItem>, pre: seq<int>, fellBack: bool)
    requires Streamed(s, Normalize(options), auto, cancel, trace, out, pre, fellBack) && !AllValues(out)
    requires forall p: nat :: !cancel(p)
    ensures EndsInFailure(out)
  {
    hide Delivered, OneWay, Obeys, LastReply, Values, CountedInAll, Honest;
    assert !cancel(|trace| + |Values(out)|);
  }

  lemma FinishedFits(s: Server, perPage: int, fallsBack: bool, out: seq<StreamItem>, k: nat)
    requires 0 < k && k * perPage >= |s.ids| && out == AsValues(s.ids)
    ensures StreamsExactly(s, perPage, fallsBack, out, k)
  {
    assert [] + s.ids == s.ids;
  }

  lemma FailedAtOnce(s: Server, options: Options, auto: bool, cancel: nat -> bool, trace: seq<Options>,
                     out: seq<StreamItem>, pre: seq<int>, k: nat)
    requires Ascending(s.ids) && Honest(s) && FromStart(options) && FirstFault(s, 0, k)
    requires Streamed(s, Normalize(options), auto, cancel, trace, out, pre, false) && !AllValues(out)
    requires EndsInFailure(out)
    ensures StreamsExactly(s, Normalize(options).perPage, auto && options.mode == Keyset, out, k)
  {
    hide Obeys, LastReply, Values, AllValues, Looks, Honest, Rest, FirstPages;
    StartsAtAll(s.ids, options);
    assert |trace| - 1 == k;
    assert trace[k].mode == trace[0].mode;
    ValuesThenError(out);
    PrefixIsFirstPages(s.ids, Values(out), k, Normalize(options).perPage);
    assert [] + Values(out) == Values(out);
  }

  lemma FellBackAndFailed(s: Server, options: Options, auto: bool, cancel: nat -> bool, trace: seq<Options>,
                          out: seq<StreamItem>, pre: seq<int>, k: nat)
    requires Ascending(s.ids) && Honest(s) && FromStart(options) && FirstFault(s, 0, k)
    requires Streamed(s, Normalize(options), auto, cancel, trace, out, pre, true) && !AllValues(out)
    requires EndsInFailure(out)
    ensures StreamsExactly(s, Normalize(options).perPage, auto && options.mode == Keyset, out, k)
  {
    hide *;
    var n, P := |trace| - 1, Normalize(options).perPage;
    Refused(s, options, auto, cancel, trace, out, pre, k);
    FailureIsLast(s, Normalize(options), auto, cancel, trace, out, pre);
    FailedAfter(s, P, out, pre, k + 1, n);
    OnlyFault(s, P, out, pre, k, n);
  }

  lemma FailureIsLast(s: Server, start: Options, auto: bool, cancel: nat -> bool, trace: seq<Options>,
                      out: seq<StreamItem>, pre: seq<int>)
    requires Normalized(start) && Streamed(s, start, auto, cancel, trace, out, pre, true) && !AllValues(out)
    requires EndsInFailure(out)
    ensures trace != [] && out[|out| - 1] == Err(FetchFailed(|trace| - 1)) && s.fault(|trace| - 1) != Healthy
    ensures AllValues(out[..|out| - 1]) && (Honest(s) ==> Values(out) <= pre + s.ids)
  {
    hide OneWay, Obeys, LastReply, Values, AllValues, Looks, Honest, CountedInAll;
  }

  lemma FailedAfter(s: Server, perPage: int, out: seq<StreamItem>, pre: seq<int>, n: nat, m: nat)
    requires perPage >= 1 && n <= m && EndsInFailure(out) && AllValues(out[..|out| - 1]) && out[|out| - 1] == Err(FetchFailed(m))
    requires Values(out) <= pre + s.ids && |Values(out)| == |pre| + AtMost((m - n) * perPage, |s.ids|)
    ensures PagesThenError(s, perPage, out, pre, n, m)
  {
    hide Values, AllValues, AsValues;
    ValuesThenError(out);
    MorePages(0, m - n, perPage);
    var sent := Values(out)[|pre|..];
    assert Values(out) == pre + sent;
    PrefixIsFirstPages(s.ids, sent, m - n, perPage);
  }

  lemma OnlyFault(s: Server, perPage: int, out: seq<StreamItem>, pre: seq<int>, k: nat, n: nat)
    requires k < n && s.fault(k) == BadRequest && s.fault(n) != Healthy && forall i: nat :: k < i < n ==> s.fault(i) == Healthy
    requires pre == FirstPages(s.ids, k, perPage) && PagesThenError(s, perPage, out, pre, k + 1, n)
    ensures StreamsExactly(s, perPage, true, out, k)
  {
    hide PagesThenError, FirstPages, AsValues;
    var next := k + 1;
    forall m: nat | FirstFault(s, next, m) ensures PagesThenError(s, perPage, out, pre, next, m) {
      assert m == n;
    }
  }

  lemma FellBackAndFinished(s: Server, options: Options, auto: bool, cancel: nat -> bool, trace: seq<Options>,
                            out: seq<StreamItem>, pre: seq<int>, k: nat)
    requires Ascending(s.ids) && Honest(s) && FromStart(options) && FirstFault(s, 0, k)
    requires Streamed(s, Normalize(options), auto, cancel, trace, out, pre, true) && AllValues(out)
    ensures StreamsExactly(s, Normalize(options).perPage, auto && options.mode == Keyset, out, k)
  {
    hide *;
    Refused(s, options, auto, cancel, trace, out, pre, k);
    StreamIsTheListing(s, options, auto, cancel, trace, out, pre, true);
    StreamedValues(s, options, auto, cancel, trace, out, pre, true);
    LastIsHealthy(s, Normalize(options), auto, cancel, trace, out, pre);
    FinishedAfter(s, Normalize(options).perPage, out, pre, k, |trace|);
  }

  lemma LastIsHealthy(s: Server, start: Options, auto: bool, cancel: nat -> bool, trace: seq<Options>,
                      out: seq<StreamItem>, pre: seq<int>)
    requires Normalized(start) && Streamed(s, start, auto, cancel, trace, out, pre, true) && AllValues(out)
    ensures trace != [] && s.fault(|trace| - 1) == Healthy
  {
    hide OneWay, Obeys, LastReply, Values, Looks, Honest, CountedInAll, Delivered;
  }

  lemma FinishedAfter(s: Server, perPage: int, out: seq<StreamItem>, pre: seq<int>, k: nat, n: nat)
    requires perPage >= 1 && k < n && s.fault(k) == BadRequest && s.fault(n - 1) == Healthy
    requires forall i: nat :: k < i < n ==> s.fault(i) == Healthy
    requires pre == FirstPages(s.ids, k, perPage) && out == AsValues(pre + s.ids)
    requires |s.ids| == AtMost((n - k - 1) * perPage, |s.ids|)
    ensures StreamsExactly(s, perPage, true, out, k)
  {
    hide FirstPages, AsValues;
    var next := k + 1;
    forall m: nat | FirstFault(s, next, m) ensures PagesThenError(s, perPage, out, pre, next, m) {
      assert m >= n;
      MorePages(n - k - 1, m - k - 1, perPage);
    }
  }

  /** StreamAll, as the consumer of the channel sees it. An error item is always the last; it reports
      a done context or a request that failed and did not fall back. When the links are honest and
      the stream starts at the beginning, a run without an error item covers exactly the listing,
      and is the listing, each item once and in order, unless a request after the first fell back;
      then it is the prefix sent before that request, followed by the whole listing. Without
      cancellation the failing requests determine what is sent. */
  method StreamAll(s: Server, options: Options, autoFallback: bool, cancel: nat -> bool) returns (out: seq<StreamItem>)
    requires Ascending(s.ids)
    ensures exists trace, pre, fellBack ::
              Streamed(s, Normalize(options), autoFallback, cancel, trace, out, pre, fellBack)
    ensures out == [] || AllValues(out[..|out| - 1])
    ensures Honest(s) && FromStart(options) && AllValues(out) ==>
              && (forall id :: id in s.ids <==> Value(id) in out)
              && (out == AsValues(s.ids) || exists n: nat :: n <= |s.ids| && out == AsValues(s.ids[..n] + s.ids))
    ensures Honest(s) && FromStart(options) && AllValues(out) && !MayFallBackLate(s, options, autoFallback) ==>
              out == AsValues(s.ids)
    ensures Honest(s) && FromStart(options) && (forall p: nat :: !cancel(p)) ==>
              && ((forall i: nat :: s.fault(i) == Healthy) ==> out == AsValues(s.ids))
              && forall k: nat :: FirstFault(s, 0, k) ==>
                   StreamsExactly(s, if options.perPage <= 0 then 100 else options.perPage,
                                  autoFallback && options.mode == Keyset, out, k)
  {
    hide *;
    var fellBack;
    ghost var pre, trace;
    out, fellBack, pre, trace := StreamLoop(s, options, autoFallback, cancel);
    ErrorIsLast(s, Normalize(options), autoFallback, cancel, trace, out, pre, fellBack);
    if Honest(s) && FromStart(options) && AllValues(out) {
      StreamIsTheListing(s, options, autoFallback, cancel, trace, out, pre, fellBack);
      OnlyKeysetFallsBack(s, options, autoFallback, cancel, trace, out, pre, fellBack);
      if fellBack {
        assert pre == s.ids[..|pre|];
        assert out == AsValues(s.ids[..|pre|] + s.ids);
      }
    }
    if Honest(s) && FromStart(options) && forall p: nat :: !cancel(p) {
      PageSize(options);
      if forall i: nat :: s.fault(i) == Healthy {
        HealthyStream(s, options, autoFallback, cancel, trace, out, pre, fellBack);
      }
      forall k: nat | FirstFault(s, 0, k)
        ensures StreamsExactly(s, Normalize(options).perPage, autoFallback && options.mode == Keyset, out, k)
      {
        StreamIsExact(s, options, autoFallback, cancel, trace, out, pre, fellBack, k);
      }
    }
  }

  lemma PageSize(options: Options)
    ensures Normalize(options).perPage == if options.perPage <= 0 then 100 else options.perPage
  {
  }

  lemma HealthyStream(s: Server, options: Options, auto: bool, cancel: nat -> bool, trace: seq<Options>,
                      out: seq<StreamItem>, pre: seq<int>, fellBack: bool)
    requires Ascending(s.ids) && Honest(s) && FromStart(options)
    requires Streamed(s, Normalize(options), auto, cancel, trace, out, pre, fellBack)
    requires (forall p: nat :: !cancel(p)) && forall i: nat :: s.fault(i) == Healthy
    ensures out == AsValues(s.ids)
  {
    HealthyRunHasNoError(s, Normalize(options), auto, cancel, trace, out, pre, fellBack);
    hide Delivered, OneWay, Obeys, LastReply, Values, AllValues, Looks, Honest, Rest, EndsProperly, CountedInAll;
    StreamIsTheListing(s, options, auto, cancel, trace, out, pre, fellBack);
  }

  /** Some request other than the first may be a keyset request that is refused and falls back. */
  ghost predicate MayFallBackLate(s: Server, options: Options, autoFallback: bool) {
    autoFallback && options.mode == Keyset && s.fault(0) != BadRequest && exists k: nat :: s.fault(k) == BadRequest
  }

  lemma OnlyKeysetFallsBack(s: Server, options: Options, auto: bool, cancel: nat -> bool, trace: seq<Options>,
                            out: seq<StreamItem>, pre: seq<int>, fellBack: bool)
    requires Streamed(s, Normalize(options), auto, cancel, trace, out, pre, fellBack)
    ensures !MayFallBackLate(s, options, auto) ==> !fellBack || s.fault(0) == BadRequest
  {
    hide Delivered, OneWay, EndsProperly, Honest;
  }

  lemma ErrorIsLast(s: Server, start: Options, auto: bool, cancel: nat -> bool, trace: seq<Options>,
                    out: seq<StreamItem>, pre: seq<int>, fellBack: bool)
    requires Normalized(start) && Streamed(s, start, auto, cancel, trace, out, pre, fellBack)
    ensures out == [] || AllValues(out[..|out| - 1])
  {
    hide Delivered, OneWay, Honest, Obeys, LastReply, Values, CountedInAll;
  }

  /** CollectAll: the values up to the first error item, and that error. */
  method CollectAll(ch: seq<StreamItem>) returns (results: seq<int>, err: Option<Failure>)
    ensures err.None? ==> AllValues(ch) && results == Values(ch)
    ensures err.Some? ==>
              exists i :: 0 <= i < |ch| && ch[i] == Err(err.value) && AllValues(ch[..i]) && results == Values(ch[..i])
  {
    results, err := [], None;
    for i := 0 to |ch|
      invariant AllValues(ch[..i]) && results == Values(ch[..i])
    {
      if ch[i].Err? {
        assert ch[i] == Err(ch[i].failure);
        return results, Some(ch[i].failure);
      }
      assert ch[..i + 1] == ch[..i] + [ch[i]];
      ValuesOfAppend(ch[..i], ch[i].id, ContextDone);
      results := results + [ch[i].id];
    }
    assert ch[..|ch|] == ch;
  }
}
