/** Walking the Fever API by max_id while entries come and go (internal/fever/handler.go). */
module FeverWalk {
  import opened Catalog
  import opened FeverPaging
  import FeverPageRepeats

  /** The tables may change between two requests; ids are positive and the keys hold. */
  ghost predicate Tables(cats: nat -> Catalog) {
    forall k :: Consistent(cats(k)) && forall id :: id in cats(k).entries ==> id > 0
  }

  /** The entry exists at every request from the first to the k-th. */
  ghost predicate Throughout(cats: nat -> Catalog, userID: int, id: int, k: nat) {
    forall j: nat :: j <= k ==> OwnedAt(cats(j), userID, id)
  }

  /** What holds after k requests that returned ids, the lowest of them maxID: they descend, each
      was there, and every entry not below maxID that exists throughout is among them. */
  ghost predicate Walked(cats: nat -> Catalog, userID: int, ids: seq<int>, maxID: int, k: nat) {
    && (if ids == [] then maxID == 0 else maxID > 0 && ids[|ids| - 1] == maxID)
    && Descending(ids)
    && (forall id :: id in ids ==> Seen(cats, userID, id, k))
    && (forall id :: Throughout(cats, userID, id, k) && maxID > 0 && id >= maxID ==> id in ids)
  }

  ghost predicate Seen(cats: nat -> Catalog, userID: int, id: int, k: nat) {
    exists j: nat :: j < k && OwnedAt(cats(j), userID, id)
  }

  /** The requests of a walk: what each passed as max_id and the page it got. */
  datatype Request = Request(maxID: int, page: seq<int>)

  /** From 0 on, each request passes the lowest id of the page before. */
  ghost predicate IsWalk(cats: nat -> Catalog, userID: int, walk: seq<Request>) {
    walk == [] ||
    (var k := |walk| - 1; IsWalk(cats, userID, walk[..k]) && IsRequest(cats(k), userID, walk[..k], walk[k]))
  }

  ghost predicate IsRequest(cat: Catalog, userID: int, before: seq<Request>, r: Request) {
    r.page != [] && r.maxID == NextMaxID(before) && r.maxID >= 0 && IsPage(cat, userID, r.maxID, r.page)
  }

  function NextMaxID(walk: seq<Request>): int {
    if walk == [] || walk[|walk| - 1].page == [] then 0 else walk[|walk| - 1].page[|walk[|walk| - 1].page| - 1]
  }

  /** All ids received. */
  function Received(walk: seq<Request>): seq<int> {
    if walk == [] then [] else Received(walk[..|walk| - 1]) + walk[|walk| - 1].page
  }

  /** Whatever is inserted or deleted between the requests, the walk ends, returns ids in
      descending order, and returns every entry that exists throughout. No id comes twice if and
      only if at every request each of the first forty-nine entries below its max_id has at most
      one icon. */
  method WalkByMaxID(cats: nat -> Catalog, now: int, userID: int)
    returns (ids: seq<int>, requests: nat, ghost walk: seq<Request>)
    requires Tables(cats)
    ensures Descending(ids)
    ensures |walk| == requests && IsWalk(cats, userID, walk) && ids == Received(walk)
    ensures StrictlyDescending(ids) <==>
            forall k :: 0 <= k < requests ==> FeverPageRepeats.ShowsEachOnce(cats(k), userID, walk[k].maxID)
    ensures forall id :: id in ids ==> Seen(cats, userID, id, requests)
    ensures forall id :: Throughout(cats, userID, id, requests) ==> id in ids
  {
    ids, requests, walk := [], 0, [];
    var maxID, over := 0, false;
    while !over
      invariant |walk| == requests && Recorded(cats, userID, ids, walk, maxID)
      invariant over ==> PageOk(cats(requests), userID, maxID, [])
      decreases !over, if maxID == 0 then 1 else 0, maxID
    {
      var page := Fetch(cats, requests, now, userID, maxID);
      if page == [] {
        over := true;
      } else {
        RecordGoesOn(cats, userID, ids, walk, maxID, page);
        ids, requests, walk := ids + page, requests + 1, walk + [Request(maxID, page)];
        maxID := page[|page| - 1];
      }
    }
    WalkIsOver(cats, userID, ids, walk, maxID);
  }

  lemma {:induction false} WalkIsOver(cats: nat -> Catalog, userID: int, ids: seq<int>, walk: seq<Request>, maxID: int)
    requires Tables(cats) && Recorded(cats, userID, ids, walk, maxID) && PageOk(cats(|walk|), userID, maxID, [])
    ensures Descending(ids) && IsWalk(cats, userID, walk) && ids == Received(walk)
    ensures StrictlyDescending(ids) <==>
            forall k :: 0 <= k < |walk| ==> FeverPageRepeats.ShowsEachOnce(cats(k), userID, walk[k].maxID)
    ensures forall id :: id in ids ==> Seen(cats, userID, id, |walk|)
    ensures forall id :: Throughout(cats, userID, id, |walk|) ==> id in ids
  {
    WalkFacts(cats, userID, walk);
    WalkEnds(cats, userID, maxID, ids, |walk|);
    AllShowEachOnce(cats, userID, walk);
  }

  /** What any record of requests tells about the ids received. */
  ghost predicate WalkOk(cats: nat -> Catalog, userID: int, walk: seq<Request>) {
    && Walked(cats, userID, Received(walk), NextMaxID(walk), |walk|)
    && StrictTogether(Received(walk), walk)
  }

  lemma {:induction false} WalkFacts(cats: nat -> Catalog, userID: int, walk: seq<Request>)
    requires Tables(cats) && IsWalk(cats, userID, walk)
    ensures WalkOk(cats, userID, walk)
  {
    if walk == [] {
      NoWalkIsOk(cats, userID);
    } else {
      WalkFacts(cats, userID, walk[..|walk| - 1]);
      LastKeepsWalkOk(cats, userID, walk);
    }
  }

  lemma NoWalkIsOk(cats: nat -> Catalog, userID: int)
    ensures WalkOk(cats, userID, [])
  {
  }

  lemma {:induction false} LastKeepsWalkOk(cats: nat -> Catalog, userID: int, walk: seq<Request>)
    requires Tables(cats) && walk != [] && WalkOk(cats, userID, walk[..|walk| - 1])
    requires IsRequest(cats(|walk| - 1), userID, walk[..|walk| - 1], walk[|walk| - 1])
    ensures WalkOk(cats, userID, walk)
  {
    var before, r := walk[..|walk| - 1], walk[|walk| - 1];
    assert before + [r] == walk;
    WalkOkGoesOn(cats, userID, before, r);
  }

  lemma {:induction false} WalkOkGoesOn(cats: nat -> Catalog, userID: int, before: seq<Request>, r: Request)
    requires Tables(cats) && WalkOk(cats, userID, before) && IsRequest(cats(|before|), userID, before, r)
    ensures WalkOk(cats, userID, before + [r])
  {
    PageFacts(cats(|before|), userID, r.maxID, r.page);
    WalkStep(cats, userID, r.maxID, r.page, Received(before), |before|);
    StrictGoesOn(cats, userID, Received(before), before, r.maxID, r.page);
    ReceivedSnoc(before, r);
    assert Request(r.maxID, r.page) == r;
  }

  lemma {:induction false} ReceivedSnoc(before: seq<Request>, r: Request)
    requires r.page != []
    ensures Received(before + [r]) == Received(before) + r.page
    ensures NextMaxID(before + [r]) == r.page[|r.page| - 1]
  {
    assert (before + [r])[..|before|] == before;
  }

  method Fetch(cats: nat -> Catalog, k: nat, now: int, userID: int, maxID: int) returns (page: seq<int>)
    requires Tables(cats) && maxID >= 0
    ensures Fetched(cats(k), userID, maxID, page)
  {
    page := HandleItems(cats(k), now, userID, maxID);
    PageFacts(cats(k), userID, maxID, page);
    assert page != [] ==> page[|page| - 1] in page;
  }

  ghost predicate Fetched(cat: Catalog, userID: int, maxID: int, page: seq<int>) {
    && IsPage(cat, userID, maxID, page)
    && (page == [] ==> PageOk(cat, userID, maxID, []))
    && (page != [] ==> 0 < page[|page| - 1] && (maxID > 0 ==> page[|page| - 1] < maxID))
  }

  /** The walk so far is a record of the requests made. */
  ghost predicate Recorded(cats: nat -> Catalog, userID: int, ids: seq<int>, walk: seq<Request>, maxID: int) {
    IsWalk(cats, userID, walk) && ids == Received(walk) && maxID == NextMaxID(walk) && maxID >= 0
  }

  lemma {:induction false} RecordGoesOn(cats: nat -> Catalog, userID: int, ids: seq<int>, walk: seq<Request>,
                                        maxID: int, page: seq<int>)
    requires Recorded(cats, userID, ids, walk, maxID) && page != [] && Fetched(cats(|walk|), userID, maxID, page)
    ensures Recorded(cats, userID, ids + page, walk + [Request(maxID, page)], page[|page| - 1])
  {
    OneMoreRequest(cats, userID, walk, Request(maxID, page));
  }

  ghost predicate StrictTogether(ids: seq<int>, walk: seq<Request>) {
    StrictlyDescending(ids) <==> AllStrict(walk)
  }

  lemma {:induction false} StrictGoesOn(cats: nat -> Catalog, userID: int, ids: seq<int>, walk: seq<Request>,
                                        maxID: int, page: seq<int>)
    requires StrictTogether(ids, walk) && Walked(cats, userID, ids, maxID, |walk|) && PageOk(cats(|walk|), userID, maxID, page)
    ensures StrictTogether(ids + page, walk + [Request(maxID, page)])
  {
    PageIsBelow(cats, userID, ids, maxID, |walk|, page);
    StrictSoFar(ids, walk, maxID, page);
  }

  lemma PageIsBelow(cats: nat -> Catalog, userID: int, ids: seq<int>, maxID: int, k: nat, page: seq<int>)
    requires Walked(cats, userID, ids, maxID, k) && PageOk(cats(k), userID, maxID, page)
    ensures Descending(ids) && Descending(page)
    ensures ids != [] ==> ids[|ids| - 1] == maxID && forall id :: id in page ==> id < maxID
  {
  }

  lemma {:induction false} OneMoreRequest(cats: nat -> Catalog, userID: int, walk: seq<Request>, r: Request)
    requires IsWalk(cats, userID, walk) && IsRequest(cats(|walk|), userID, walk, r)
    ensures IsWalk(cats, userID, walk + [r])
    ensures Received(walk + [r]) == Received(walk) + r.page && NextMaxID(walk + [r]) == r.page[|r.page| - 1]
  {
    assert (walk + [r])[..|walk|] == walk;
    ReceivedSnoc(walk, r);
  }

  lemma {:induction false} AllShowEachOnce(cats: nat -> Catalog, userID: int, walk: seq<Request>)
    requires Tables(cats) && IsWalk(cats, userID, walk)
    ensures AllStrict(walk) <==>
            forall k :: 0 <= k < |walk| ==> FeverPageRepeats.ShowsEachOnce(cats(k), userID, walk[k].maxID)
  {
    forall k | 0 <= k < |walk|
      ensures StrictlyDescending(walk[k].page) <==> FeverPageRepeats.ShowsEachOnce(cats(k), userID, walk[k].maxID)
    {
      RequestMade(cats, userID, walk, k);
      FeverPageRepeats.PageShowsEachOnceExactlyWhen(cats(k), userID, walk[k].maxID, walk[k].page);
    }
  }

  lemma {:induction false} RequestMade(cats: nat -> Catalog, userID: int, walk: seq<Request>, k: nat)
    requires IsWalk(cats, userID, walk) && k < |walk|
    ensures IsRequest(cats(k), userID, walk[..k], walk[k])
  {
    var n := |walk| - 1;
    if k < n {
      RequestMade(cats, userID, walk[..n], k);
      assert walk[..n][..k] == walk[..k];
    }
  }

  ghost predicate AllStrict(walk: seq<Request>) {
    forall k :: 0 <= k < |walk| ==> StrictlyDescending(walk[k].page)
  }

  lemma StrictSoFar(ids: seq<int>, walk: seq<Request>, maxID: int, page: seq<int>)
    requires StrictlyDescending(ids) <==> AllStrict(walk)
    requires Descending(ids) && Descending(page)
    requires ids != [] ==> ids[|ids| - 1] == maxID && forall id :: id in page ==> id < maxID
    ensures StrictlyDescending(ids + page) <==> AllStrict(walk + [Request(maxID, page)])
  {
    Joined(ids, page, maxID);
    StrictParts(ids, page);
    assert (walk + [Request(maxID, page)])[|walk|].page == page;
    assert AllStrict(walk + [Request(maxID, page)]) <==> AllStrict(walk) && StrictlyDescending(page) by {
      assert forall k :: 0 <= k < |walk| ==> (walk + [Request(maxID, page)])[k] == walk[k];
    }
  }

  lemma StrictParts(a: seq<int>, b: seq<int>)
    ensures StrictlyDescending(a + b) ==> StrictlyDescending(a) && StrictlyDescending(b)
  {
    var both := a + b;
    assert forall i :: 0 <= i < |a| ==> both[i] == a[i];
    assert forall i :: 0 <= i < |b| ==> both[|a| + i] == b[i];
  }

  lemma WalkEnds(cats: nat -> Catalog, userID: int, maxID: int, ids: seq<int>, requests: nat)
    requires Walked(cats, userID, ids, maxID, requests) && PageOk(cats(requests), userID, maxID, [])
    ensures forall id :: Throughout(cats, userID, id, requests) ==> id in ids
  {
    forall id | Throughout(cats, userID, id, requests) ensures id in ids {
      assert OwnedAt(cats(requests), userID, id);
    }
  }

  lemma WalkStep(cats: nat -> Catalog, userID: int, maxID: int, page: seq<int>, ids: seq<int>, requests: nat)
    requires Walked(cats, userID, ids, maxID, requests)
    requires page != [] && PageOk(cats(requests), userID, maxID, page)
    ensures Walked(cats, userID, ids + page, page[|page| - 1], requests + 1)
  {
    assert page[|page| - 1] in page;
    Joined(ids, page, maxID);
    forall id | id in ids + page ensures Seen(cats, userID, id, requests + 1) {
      if id in ids {
        assert Seen(cats, userID, id, requests);
      } else {
        assert OwnedAt(cats(requests), userID, id);
      }
    }
    forall id | Throughout(cats, userID, id, requests + 1) && id >= page[|page| - 1] ensures id in ids + page {
      assert Throughout(cats, userID, id, requests);
      assert OwnedAt(cats(requests), userID, id);
    }
  }

  lemma Joined(ids: seq<int>, page: seq<int>, maxID: int)
    requires Descending(ids) && Descending(page)
    requires ids != [] ==> ids[|ids| - 1] == maxID && forall id :: id in page ==> id < maxID
    ensures Descending(ids + page)
    ensures StrictlyDescending(ids) && StrictlyDescending(page) ==> StrictlyDescending(ids + page)
  {
    forall i, j | 0 <= i < |ids| <= j < |ids + page| ensures (ids + page)[i] > (ids + page)[j] {
      assert ids[i] >= maxID;
      assert page[j - |ids|] in page;
    }
  }
}
