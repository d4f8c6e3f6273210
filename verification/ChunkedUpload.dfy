/** ChunkedUploadClient: delivering a content in numbered slices over a network that may fail at every request. */
module ChunkedUpload {
  import opened Options

  type Bytes = seq<bv8>

  // ------------------------------------------------------------ the network

  datatype Request =
    | Initiate(jobGuid: string, uploadType: string, expectedSize: nat, chunkSize: int)
    | PutChunk(uploadId: string, index: int, data: Bytes)
    | Finalize(uploadId: string, checksum: string)

  datatype UploadSession = UploadSession(uploadId: string, chunkSize: int, totalChunks: int)

  /** How a request can end: no connection or timeout, any other exception, the coroutine cancelled, or a reply. */
  datatype Response =
    | Unreachable
    | Broken
    | Interrupted
    | Reply(status: int, body: Body)

  /** What a reply carries: nothing that reads as an object, or the fields the client looks up, absent ones by default:
      no session, no success, a chunk received. */
  datatype Body = NoObject | Fields(session: Option<UploadSession>, success: bool, received: bool)

  /** A request, how it ended, and whether the coroutine is cancelled should it wait before trying again. */
  datatype Exchange = Exchange(request: Request, response: Response, waitCut: bool)

  /** What a call raises. */
  datatype Failure = ConnectionFailure | AuthenticationFailure | ChunkedUploadFailure | OtherFailure | TaskCancelled

  datatype Outcome<+T> = Done(value: T) | Raised(failure: Failure)

  /** The world outside: `answers` fixes beforehand how the n-th request will end, and `cuts` whether a wait after it is
      interrupted, in any way at all. */
  class Network {
    const answers: nat -> Response
    const cuts: nat -> bool
    var log: seq<Exchange>

    ghost predicate Valid()
      reads this
    {
      forall k :: 0 <= k < |log| ==> log[k].response == answers(k) && log[k].waitCut == cuts(k)
    }

    constructor (answers: nat -> Response, cuts: nat -> bool)
      ensures Valid() && this.answers == answers && this.cuts == cuts && log == []
    {
      this.answers, this.cuts := answers, cuts;
      log := [];
    }

    method Send(request: Request) returns (response: Response)
      requires Valid()
      modifies this
      ensures Valid() && response == answers(|old(log)|)
      ensures log == old(log) + [Exchange(request, response, cuts(|old(log)|))]
    {
      response := answers(|log|);
      log := log + [Exchange(request, response, cuts(|log|))];
    }

    /** The wait between two tries, right after an exchange. */
    method Wait() returns (interrupted: bool)
      requires Valid() && log != []
      ensures interrupted == log[|log| - 1].waitCut
    {
      interrupted := cuts(|log| - 1);
    }
  }

  // ------------------------------------------------------------ slices

  /** The bound of a Python slice: negative ones count from the end, all are clamped. */
  function SliceBound(length: nat, b: int): (r: nat)
    ensures r <= length
  {
    if b < 0 then (if b + length < 0 then 0 else b + length) else if b > length then length else b
  }

  function PySlice(s: Bytes, a: int, b: int): Bytes {
    var i, j := SliceBound(|s|, a), SliceBound(|s|, b);
    if i <= j then s[i..j] else []
  }

  function Min(a: int, b: int): int { if a <= b then a else b }

  /** The slice number `i` under a session's chunk size, whatever that size is. */
  function Piece(content: Bytes, chunkSize: int, i: nat): Bytes {
    PySlice(content, i * chunkSize, Min(i * chunkSize + chunkSize, |content|))
  }

  function Pieces(content: Bytes, chunkSize: int, n: nat): Bytes {
    if n == 0 then [] else Pieces(content, chunkSize, n - 1) + Piece(content, chunkSize, n - 1)
  }

  /** `_calculate_total_chunks`. */
  function TotalChunks(size: nat, chunkSize: int): int
    requires chunkSize > 0
  {
    (size + chunkSize - 1) / chunkSize
  }

  lemma ProductGrows(i: nat, j: nat, c: nat)
    requires i <= j
    ensures i * c <= j * c && (i + 1) * c == i * c + c
  {
  }

  /** With a positive chunk size the slices are the consecutive intervals of the content. */
  lemma PieceIsInterval(content: Bytes, chunkSize: int, i: nat)
    requires chunkSize > 0
    ensures 0 <= i * chunkSize
    ensures var a, b := Min(i * chunkSize, |content|), Min((i + 1) * chunkSize, |content|);
            0 <= a <= b <= |content| && Piece(content, chunkSize, i) == content[a..b]
  {
    ProductGrows(0, i, chunkSize);
    ProductGrows(i, i, chunkSize);
  }

  lemma {:induction false} PiecesArePrefix(content: Bytes, chunkSize: int, n: nat)
    requires chunkSize > 0
    ensures 0 <= n * chunkSize && Pieces(content, chunkSize, n) == content[..Min(n * chunkSize, |content|)]
  {
    hide Piece;
    ProductGrows(0, n, chunkSize);
    if n > 0 {
      PiecesArePrefix(content, chunkSize, n - 1);
      PieceIsInterval(content, chunkSize, n - 1);
      assert n * chunkSize == (n - 1 + 1) * chunkSize;
    }
  }

  /** The chunk count is the least one whose slices reach the end of the content. */
  lemma TotalChunksLeast(size: nat, chunkSize: int)
    requires chunkSize > 0
    ensures var n := TotalChunks(size, chunkSize);
            0 <= n && size <= n * chunkSize && (n > 0 ==> (n - 1) * chunkSize < size)
  {
    var n, x := TotalChunks(size, chunkSize), size + chunkSize - 1;
    assert x == n * chunkSize + x % chunkSize;
    assert (n - 1) * chunkSize == n * chunkSize - chunkSize;
  }

  /** A slice that ends where it starts or, counted from the end, before it, is empty. */
  lemma SliceBackwards(s: Bytes, a: int, b: int)
    requires a == b || b < a < 0
    ensures PySlice(s, a, b) == []
  {
  }

  lemma NonPositiveProduct(n: nat, c: int)
    requires c <= 0
    ensures n * c <= 0 && (n > 0 && c < 0 ==> n * c < 0)
  {
  }

  /** With a chunk size that is not positive, every slice after the first is empty. */
  lemma BackwardPiece(content: Bytes, chunkSize: int, i: nat)
    requires chunkSize <= 0 && i > 0
    ensures Piece(content, chunkSize, i) == []
  {
    hide PySlice;
    var start := i * chunkSize;
    NonPositiveProduct(i, chunkSize);
    SliceBackwards(content, start, start + chunkSize);
  }

  /** And the first leaves out the end of the content. */
  lemma FirstBackwardPiece(content: Bytes, chunkSize: int)
    requires chunkSize <= 0
    ensures |Piece(content, chunkSize, 0)| <= |content|
    ensures content != [] ==> |Piece(content, chunkSize, 0)| < |content|
  {
    assert 0 * chunkSize == 0;
    assert Piece(content, chunkSize, 0) == PySlice(content, 0, chunkSize);
  }

  lemma {:induction false} BackwardPiecesFallShort(content: Bytes, chunkSize: int, n: nat)
    requires chunkSize <= 0
    ensures |Pieces(content, chunkSize, n)| <= |content|
    ensures content != [] ==> |Pieces(content, chunkSize, n)| < |content|
    ensures n > 0 ==> Pieces(content, chunkSize, n) == Piece(content, chunkSize, 0)
  {
    hide Piece;
    FirstBackwardPiece(content, chunkSize);
    if n > 0 {
      BackwardPiecesFallShort(content, chunkSize, n - 1);
      if n > 1 { BackwardPiece(content, chunkSize, n - 1); } else { assert Pieces(content, chunkSize, 0) == []; }
    }
  }

  ghost predicate AllPiecesFilled(content: Bytes, chunkSize: int, n: nat) {
    forall i: nat :: i < n ==> Piece(content, chunkSize, i) != []
  }

  ghost predicate SessionFits(content: Bytes, chunkSize: int, totalChunks: int) {
    if content == [] then totalChunks <= 0 else chunkSize > 0 && totalChunks == TotalChunks(|content|, chunkSize)
  }

  function Count(totalChunks: int): nat { if totalChunks < 0 then 0 else totalChunks }

  /** The slices of a session make up the content, none of them empty, exactly when its chunk count is the right one. */
  lemma PiecesCoverExactly(content: Bytes, chunkSize: int, totalChunks: int)
    ensures Pieces(content, chunkSize, Count(totalChunks)) == content &&
              AllPiecesFilled(content, chunkSize, Count(totalChunks)) <==>
            SessionFits(content, chunkSize, totalChunks)
  {
    var n := Count(totalChunks);
    if chunkSize <= 0 {
      BackwardPiecesFallShort(content, chunkSize, n);
      FirstBackwardPiece(content, chunkSize);
    } else {
      PositivePiecesCover(content, chunkSize, n);
      TotalChunksLeast(|content|, chunkSize);
    }
  }

  lemma PositivePiecesCover(content: Bytes, chunkSize: int, n: nat)
    requires chunkSize > 0
    ensures Pieces(content, chunkSize, n) == content && AllPiecesFilled(content, chunkSize, n) <==>
              n == TotalChunks(|content|, chunkSize)
  {
    var least := TotalChunks(|content|, chunkSize);
    TotalChunksLeast(|content|, chunkSize);
    PiecesArePrefix(content, chunkSize, n);
    if n < least {
      ProductGrows(n, least - 1, chunkSize);
    } else {
      ProductGrows(least, n, chunkSize);
      assert content[..|content|] == content;
    }
    forall i: nat | i < n ensures i < least <==> Piece(content, chunkSize, i) != [] {
      PieceIsInterval(content, chunkSize, i);
      if i < least {
        ProductGrows(i, least - 1, chunkSize);
        ProductGrows(i, i, chunkSize);
      } else {
        ProductGrows(least, i, chunkSize);
      }
    }
    if n > least { assert Piece(content, chunkSize, least) == []; }
  }

  /** No slice is longer than the chunk size. */
  lemma PiecesAreBounded(content: Bytes, chunkSize: int, i: nat)
    requires chunkSize > 0
    ensures |Piece(content, chunkSize, i)| <= chunkSize
  {
    PieceIsInterval(content, chunkSize, i);
    ProductGrows(i, i, chunkSize);
  }

  // ------------------------------------------------------------ what was sent

  /** A chunk is acknowledged as new by an object, whatever its fields, and as a duplicate by the status alone. */
  predicate Acknowledges(r: Response) {
    r.Reply? && ((r.status == 200 && r.body.Fields?) || r.status == 409)
  }

  /** What a reply that is no success raises; a bad request is looked into for its reason. */
  function Refusal(status: int, body: Body): Failure {
    if status == 401 then AuthenticationFailure
    else if status == 400 && body.NoObject? then OtherFailure
    else ChunkedUploadFailure
  }

  /** How one chunk request ends for the caller: a new and a duplicate chunk are equally fine. */
  function ChunkOutcome(r: Response): Outcome<bool> {
    match r
    case Unreachable => Raised(ConnectionFailure)
    case Broken => Raised(OtherFailure)
    case Interrupted => Raised(TaskCancelled)
    case Reply(status, body) =>
      if status == 200 then (if body.Fields? then Done(body.received) else Raised(OtherFailure))
      else if status == 409 then Done(false)
      else Raised(Refusal(status, body))
  }

  predicate IsPut(x: Exchange, id: string, i: int) {
    x.request.PutChunk? && x.request.uploadId == id && x.request.index == i
  }

  /** The coroutine is cancelled in the wait after the last of the tries, which is only begun while tries are left. */
  predicate CutShort(tries: seq<Exchange>, maxRetries: int) {
    |tries| > 0 && tries[|tries| - 1].response.Unreachable? && tries[|tries| - 1].waitCut && |tries| < Count(maxRetries)
  }

  /** The wait after try number `k` is cut short, if there is one. */
  predicate WaitCut(x: Exchange, k: int, maxRetries: int) { x.waitCut && k < maxRetries - 1 }

  /** The tries of one request: all but the last met no server, and the last decides. */
  ghost predicate Tried(tries: seq<Exchange>, request: Request, maxRetries: int, r: Outcome<()>) {
    && (forall k :: 0 <= k < |tries| ==> tries[k].request == request)
    && (forall k :: 0 <= k < |tries| - 1 ==> tries[k].response.Unreachable? && !tries[k].waitCut)
    && |tries| <= Count(maxRetries)
    && if CutShort(tries, maxRetries) then r == Raised(TaskCancelled)
       else if tries == [] || tries[|tries| - 1].response.Unreachable?
       then |tries| == Count(maxRetries) && r == Raised(ChunkedUploadFailure)
       else (match ChunkOutcome(tries[|tries| - 1].response)
             case Done(_) => r == Done(())
             case Raised(failure) => r == Raised(failure))
  }

  ghost predicate Acknowledged(sent: seq<Exchange>, id: string, i: int) {
    exists k :: 0 <= k < |sent| && IsPut(sent[k], id, i) && Acknowledges(sent[k].response)
  }

  function Tries(sent: seq<Exchange>, id: string, i: int): nat {
    if sent == [] then 0
    else Tries(sent[..|sent| - 1], id, i) + if IsPut(sent[|sent| - 1], id, i) then 1 else 0
  }

  /** Only slices of the content are sent, each under its own number. */
  ghost predicate SlicesOnly(sent: seq<Exchange>, session: UploadSession, content: Bytes, n: nat) {
    forall k {:trigger sent[k]} :: 0 <= k < |sent| ==>
      && sent[k].request.PutChunk? && 0 <= sent[k].request.index < n
      && sent[k].request == PutChunk(session.uploadId, sent[k].request.index,
                                     Piece(content, session.chunkSize, sent[k].request.index))
  }

  /** Slices go out in order, and none once it has been acknowledged. */
  ghost predicate InOrder(sent: seq<Exchange>)
    requires forall k :: 0 <= k < |sent| ==> sent[k].request.PutChunk?
  {
    forall j, k :: 0 <= j < k < |sent| ==>
      && sent[j].request.index <= sent[k].request.index
      && (Acknowledges(sent[j].response) ==> sent[j].request.index < sent[k].request.index)
  }

  ghost predicate TriesBounded(sent: seq<Exchange>, id: string, maxRetries: int) {
    forall i {:trigger Tries(sent, id, i)} :: Tries(sent, id, i) <= Count(maxRetries)
  }

  ghost predicate Delivery(sent: seq<Exchange>, session: UploadSession, content: Bytes, maxRetries: int, n: nat) {
    SlicesOnly(sent, session, content, n) && InOrder(sent) && TriesBounded(sent, session.uploadId, maxRetries)
  }

  ghost predicate AllAcknowledged(sent: seq<Exchange>, id: string, n: nat) {
    forall i :: 0 <= i < n ==> Acknowledged(sent, id, i)
  }

  lemma {:induction false} TriesConcat(a: seq<Exchange>, b: seq<Exchange>, id: string, i: int)
    ensures Tries(a + b, id, i) == Tries(a, id, i) + Tries(b, id, i)
  {
    if b == [] {
      assert a + b == a;
    } else {
      assert (a + b)[..|a + b| - 1] == a + b[..|b| - 1];
      TriesConcat(a, b[..|b| - 1], id, i);
    }
  }

  lemma {:induction false} TriesOfOne(tries: seq<Exchange>, request: Request, id: string, i: int)
    requires request.PutChunk? && request.uploadId == id
    requires forall k :: 0 <= k < |tries| ==> tries[k].request == request
    ensures Tries(tries, id, i) == if i == request.index then |tries| else 0
  {
    if tries != [] { TriesOfOne(tries[..|tries| - 1], request, id, i); }
  }

  /** The slices before `n`, then the tries of slice `n`, keep the delivery orderly. */
  lemma DeliveryGoesOn(sent: seq<Exchange>, tries: seq<Exchange>, session: UploadSession, content: Bytes,
                       maxRetries: int, n: nat, r: Outcome<()>)
    requires Delivery(sent, session, content, maxRetries, n) && AllAcknowledged(sent, session.uploadId, n)
    requires Tried(tries, PutChunk(session.uploadId, n, Piece(content, session.chunkSize, n)), maxRetries, r)
    ensures Delivery(sent + tries, session, content, maxRetries, n + 1)
    ensures AllAcknowledged(sent + tries, session.uploadId, n)
    ensures Acknowledged(sent + tries, session.uploadId, n) <==> r.Done?
  {
    hide Piece, Tries, Tried;
    var request := PutChunk(session.uploadId, n, Piece(content, session.chunkSize, n));
    SameRequest(tries, request, maxRetries, r);
    SlicesGoOn(sent, tries, session, content, maxRetries, n, r);
    forall i ensures Tries(sent + tries, session.uploadId, i) <= Count(maxRetries) {
      TriesConcat(sent, tries, session.uploadId, i);
      TriesOfOne(tries, request, session.uploadId, i);
      if i == n { NoTriesBeyond(sent, session.uploadId, n); }
    }
    AcknowledgementsGoOn(sent, tries, session, content, maxRetries, n, r);
  }

  lemma SameRequest(tries: seq<Exchange>, request: Request, maxRetries: int, r: Outcome<()>)
    requires Tried(tries, request, maxRetries, r)
    ensures |tries| <= Count(maxRetries) && forall k :: 0 <= k < |tries| ==> tries[k].request == request
  {
  }

  lemma SlicesGoOn(sent: seq<Exchange>, tries: seq<Exchange>, session: UploadSession, content: Bytes, maxRetries: int,
                   n: nat, r: Outcome<()>)
    requires SlicesOnly(sent, session, content, n) && InOrder(sent)
    requires Tried(tries, PutChunk(session.uploadId, n, Piece(content, session.chunkSize, n)), maxRetries, r)
    ensures SlicesOnly(sent + tries, session, content, n + 1) && InOrder(sent + tries)
  {
    hide Piece;
  }

  lemma AcknowledgementsGoOn(sent: seq<Exchange>, tries: seq<Exchange>, session: UploadSession, content: Bytes,
                             maxRetries: int, n: nat, r: Outcome<()>)
    requires SlicesOnly(sent, session, content, n) && AllAcknowledged(sent, session.uploadId, n)
    requires Tried(tries, PutChunk(session.uploadId, n, Piece(content, session.chunkSize, n)), maxRetries, r)
    ensures AllAcknowledged(sent + tries, session.uploadId, n)
    ensures Acknowledged(sent + tries, session.uploadId, n) <==> r.Done?
  {
    hide Piece;
    var all := sent + tries;
    forall i | 0 <= i < n ensures Acknowledged(all, session.uploadId, i) {
      assert Acknowledged(sent, session.uploadId, i);
      var k :| 0 <= k < |sent| && IsPut(sent[k], session.uploadId, i) && Acknowledges(sent[k].response);
      assert all[k] == sent[k];
    }
    if r.Done? { assert IsPut(all[|all| - 1], session.uploadId, n) && Acknowledges(all[|all| - 1].response); }
  }

  lemma {:induction false} NoTriesBeyond(sent: seq<Exchange>, id: string, n: int)
    requires forall k :: 0 <= k < |sent| ==> sent[k].request.PutChunk? && sent[k].request.index < n
    ensures Tries(sent, id, n) == 0
  {
    if sent != [] { NoTriesBeyond(sent[..|sent| - 1], id, n); }
  }

  /** The last slice sent was given up in a wait between two tries. */
  predicate GivenUpWaiting(sent: seq<Exchange>, maxRetries: int) {
    && sent != [] && sent[|sent| - 1].request.PutChunk?
    && sent[|sent| - 1].response.Unreachable? && sent[|sent| - 1].waitCut
    && Tries(sent, sent[|sent| - 1].request.uploadId, sent[|sent| - 1].request.index) < Count(maxRetries)
  }

  /** What giving up is reported as: a wait cut short, running out of tries, or the answer that ended the last try. */
  function GivenUp(sent: seq<Exchange>, maxRetries: int): Failure {
    if GivenUpWaiting(sent, maxRetries) then TaskCancelled
    else if sent == [] || sent[|sent| - 1].response.Unreachable? then ChunkedUploadFailure
    else match ChunkOutcome(sent[|sent| - 1].response)
      case Done(_) => OtherFailure
      case Raised(failure) => failure
  }

  /** The coroutine was cancelled while waiting for an answer or between two tries. */
  predicate Cancelled(all: seq<Exchange>, maxRetries: int) {
    (all != [] && all[|all| - 1].response.Interrupted?) || GivenUpWaiting(all, maxRetries)
  }

  lemma CancelledExactly(sent: seq<Exchange>, maxRetries: int)
    ensures GivenUp(sent, maxRetries) == TaskCancelled <==> Cancelled(sent, maxRetries)
  {
  }

  /** An exchange of another kind in front changes nothing. */
  lemma CancelledBehind(first: Exchange, sent: seq<Exchange>, maxRetries: int)
    requires !first.request.PutChunk? && !first.response.Interrupted?
    ensures Cancelled([first] + sent, maxRetries) <==> Cancelled(sent, maxRetries)
  {
    if sent != [] && sent[|sent| - 1].request.PutChunk? {
      var put := sent[|sent| - 1].request;
      TriesConcat([first], sent, put.uploadId, put.index);
      assert Tries([first], put.uploadId, put.index) == 0 by { OtherTries(first, put.uploadId, put.index); }
    }
  }

  lemma OtherTries(x: Exchange, id: string, i: int)
    requires !x.request.PutChunk?
    ensures Tries([x], id, i) == 0
  {
    assert Tries([], id, i) == 0;
    assert [x][..0] == [];
  }

  /** Where the tries of a slice end without an acknowledgement, so does the whole delivery. */
  lemma GivenUpAfter(sent: seq<Exchange>, tries: seq<Exchange>, session: UploadSession, content: Bytes,
                     maxRetries: int, n: nat, r: Outcome<()>)
    requires Delivery(sent, session, content, maxRetries, n) && r.Raised?
    requires Tried(tries, PutChunk(session.uploadId, n, Piece(content, session.chunkSize, n)), maxRetries, r)
    ensures r.failure == GivenUp(sent + tries, maxRetries)
  {
    hide Piece, InOrder, TriesBounded;
    var request, all := PutChunk(session.uploadId, n, Piece(content, session.chunkSize, n)), sent + tries;
    if tries == [] {
      NothingWithoutTries(sent, session, content, maxRetries, n);
    } else {
      assert all[|all| - 1] == tries[|tries| - 1];
      TriesConcat(sent, tries, session.uploadId, n);
      TriesOfOne(tries, request, session.uploadId, n);
      NoTriesBeyond(sent, session.uploadId, n);
    }
  }

  /** Without any tries for a slice nothing was sent before it either. */
  lemma NothingWithoutTries(sent: seq<Exchange>, session: UploadSession, content: Bytes, maxRetries: int, n: nat)
    requires Delivery(sent, session, content, maxRetries, n) && Count(maxRetries) == 0
    ensures sent == []
  {
    if sent != [] {
      var last := sent[|sent| - 1];
      assert Tries(sent, session.uploadId, last.request.index) <= 0;
      assert IsPut(last, session.uploadId, last.request.index);
    }
  }

  // ------------------------------------------------------------ what the server holds

  type Store = map<int, Bytes>

  /** A server that acknowledges only what it holds. It may keep a chunk whose answer got lost,
      and may keep either copy of a chunk sent twice. */
  ghost predicate Keeps(before: Store, x: Exchange, id: string, after: Store) {
    if x.request.PutChunk? && x.request.uploadId == id then
      && (after == before || after == before[x.request.index := x.request.data])
      && (Acknowledges(x.response) ==> x.request.index in after)
    else after == before
  }

  ghost predicate History(sent: seq<Exchange>, id: string, stores: seq<Store>) {
    && |stores| == |sent| + 1 && stores[0] == map[]
    && forall k :: 0 <= k < |sent| ==> Keeps(stores[k], sent[k], id, stores[k + 1])
  }

  function Assembled(store: Store, n: nat): Bytes
    requires forall i :: 0 <= i < n ==> i in store
  {
    if n == 0 then [] else Assembled(store, n - 1) + store[n - 1]
  }

  /** Whatever it keeps of a delivery, the server only ever holds slices under their own numbers. */
  lemma {:induction false} StoreHoldsPieces(sent: seq<Exchange>, session: UploadSession, content: Bytes,
                                            stores: seq<Store>, n: nat, k: nat)
    requires SlicesOnly(sent, session, content, n)
    requires History(sent, session.uploadId, stores) && k <= |sent|
    ensures forall i :: i in stores[k] ==> 0 <= i < n && stores[k][i] == Piece(content, session.chunkSize, i)
  {
    hide Piece;
    if k > 0 {
      StoreHoldsPieces(sent, session, content, stores, n, k - 1);
      assert Keeps(stores[k - 1], sent[k - 1], session.uploadId, stores[k]);
    }
  }

  lemma {:induction false} StoreGrows(sent: seq<Exchange>, id: string, stores: seq<Store>, j: nat, k: nat)
    requires History(sent, id, stores) && j <= k <= |sent|
    ensures stores[j].Keys <= stores[k].Keys
  {
    if j < k {
      StoreGrows(sent, id, stores, j, k - 1);
      assert Keeps(stores[k - 1], sent[k - 1], id, stores[k]);
    }
  }

  lemma {:induction false} AssembledPieces(store: Store, content: Bytes, chunkSize: int, n: nat)
    requires forall i :: 0 <= i < n ==> i in store && store[i] == Piece(content, chunkSize, i)
    ensures Assembled(store, n) == Pieces(content, chunkSize, n)
  {
    hide Piece;
    if n > 0 { AssembledPieces(store, content, chunkSize, n - 1); }
  }

  /** After a delivery that ended normally the server holds every slice and nothing else, whatever was lost and
      repeated on the way; together they are the content, with no empty slice, exactly when the session fits it. */
  lemma ServerHoldsContent(sent: seq<Exchange>, session: UploadSession, content: Bytes, maxRetries: int,
                           stores: seq<Store>)
    requires var n := Count(session.totalChunks);
             Delivery(sent, session, content, maxRetries, n) && AllAcknowledged(sent, session.uploadId, n)
    requires History(sent, session.uploadId, stores)
    ensures var n, held := Count(session.totalChunks), stores[|sent|];
            && (forall i :: i in held <==> 0 <= i < n)
            && (Assembled(held, n) == content && (forall i: nat :: i < n ==> held[i] != []) <==>
                SessionFits(content, session.chunkSize, session.totalChunks))
  {
    hide Piece, Tries, SessionFits;
    var n, held := Count(session.totalChunks), stores[|sent|];
    StoreHoldsPieces(sent, session, content, stores, n, |sent|);
    forall i | 0 <= i < n ensures i in held {
      assert Acknowledged(sent, session.uploadId, i);
      var k :| 0 <= k < |sent| && IsPut(sent[k], session.uploadId, i) && Acknowledges(sent[k].response);
      assert Keeps(stores[k], sent[k], session.uploadId, stores[k + 1]);
      StoreGrows(sent, session.uploadId, stores, k + 1, |sent|);
    }
    AssembledPieces(held, content, session.chunkSize, n);
    PiecesCoverExactly(content, session.chunkSize, session.totalChunks);
  }

  // ------------------------------------------------------------ the client

  function InitiateOutcome(r: Response): Outcome<UploadSession> {
    match r
    case Unreachable => Raised(ConnectionFailure)
    case Broken => Raised(OtherFailure)
    case Interrupted => Raised(TaskCancelled)
    case Reply(status, body) =>
      if status == 201
      then (if body.Fields? && body.session.Some? then Done(body.session.value) else Raised(OtherFailure))
      else Raised(Refusal(status, body))
  }

  function FinalizeOutcome(r: Response): Outcome<()> {
    match r
    case Unreachable => Raised(ConnectionFailure)
    case Broken => Raised(OtherFailure)
    case Interrupted => Raised(TaskCancelled)
    case Reply(status, body) =>
      if status == 200
      then (if body.NoObject? then Raised(OtherFailure)
            else if body.success then Done(())
            else Raised(ChunkedUploadFailure))
      else Raised(Refusal(status, body))
  }

  /** The exchanges of a whole upload that went through. */
  ghost predicate FullUpload(all: seq<Exchange>, opening: Request, session: UploadSession, content: Bytes,
                             maxRetries: int, checksum: string) {
    && |all| >= 2 && all[0].request == opening && InitiateOutcome(all[0].response) == Done(session)
    && Delivery(all[1..|all| - 1], session, content, maxRetries, Count(session.totalChunks))
    && AllAcknowledged(all[1..|all| - 1], session.uploadId, Count(session.totalChunks))
    && all[|all| - 1].request == Finalize(session.uploadId, checksum)
    && FinalizeOutcome(all[|all| - 1].response).Done?
  }

  predicate EndsFinalized(all: seq<Exchange>) {
    all != [] && all[|all| - 1].request.Finalize? && FinalizeOutcome(all[|all| - 1].response).Done?
  }

  datatype UploadResult = Uploaded(uploadId: string, contentSize: nat, checksum: string) | NotUploaded(failure: Failure)

  /** The blanket handler around an upload; a cancelled coroutine is no ordinary exception. */
  function AsResult(failure: Failure): Outcome<UploadResult> {
    if failure == TaskCancelled then Raised(TaskCancelled) else Done(NotUploaded(failure))
  }

  class ChunkedUploadClient {
    const network: Network
    const chunkSize: int
    const maxRetries: int

    constructor (network: Network, chunkSize: int, maxRetries: int)
      ensures this.network == network && this.chunkSize == chunkSize && this.maxRetries == maxRetries
    {
      this.network, this.chunkSize, this.maxRetries := network, chunkSize, maxRetries;
    }

    method UploadChunk(uploadId: string, index: int, data: Bytes) returns (r: Outcome<bool>)
      requires network.Valid()
      modifies network
      ensures network.Valid() && |network.log| == |old(network.log)| + 1
      ensures var x := network.log[|old(network.log)|];
              && network.log == old(network.log) + [x] && x.request == PutChunk(uploadId, index, data)
              && r == ChunkOutcome(x.response) && (r.Done? <==> Acknowledges(x.response))
    {
      var response := network.Send(PutChunk(uploadId, index, data));
      r := ChunkOutcome(response);
    }

    method UploadChunkWithRetry(uploadId: string, index: int, data: Bytes)
      returns (r: Outcome<()>, ghost tries: seq<Exchange>)
      requires network.Valid()
      modifies network
      ensures network.Valid() && network.log == old(network.log) + tries
      ensures Tried(tries, PutChunk(uploadId, index, data), maxRetries, r)
    {
      tries := [];
      var attempt := 0;
      while attempt < maxRetries
        invariant network.Valid() && network.log == old(network.log) + tries && |tries| == attempt <= Count(maxRetries)
        invariant forall k :: 0 <= k < |tries| ==>
                    && tries[k].request == PutChunk(uploadId, index, data)
                    && tries[k].response.Unreachable? && !WaitCut(tries[k], k, maxRetries)
      {
        var one := UploadChunk(uploadId, index, data);
        tries := tries + [network.log[|network.log| - 1]];
        if one.Done? { return Done(()), tries; }
        if one.failure != ConnectionFailure { return Raised(one.failure), tries; }
        if attempt < maxRetries - 1 {
          var interrupted := network.Wait();
          if interrupted { return Raised(TaskCancelled), tries; }
        }
        attempt := attempt + 1;
      }
      r := Raised(ChunkedUploadFailure);
    }

    method UploadChunks(session: UploadSession, content: Bytes) returns (r: Outcome<()>, ghost sent: seq<Exchange>)
      requires network.Valid()
      modifies network
      ensures network.Valid() && network.log == old(network.log) + sent
      ensures Delivery(sent, session, content, maxRetries, Count(session.totalChunks))
      ensures r.Done? <==> AllAcknowledged(sent, session.uploadId, Count(session.totalChunks))
      ensures forall k :: 0 <= k < |sent| ==> sent[k].request.PutChunk?
      ensures r.Raised? ==> r.failure == GivenUp(sent, maxRetries)
    {
      sent := [];
      var i := 0;
      while i < session.totalChunks
        invariant 0 <= i <= Count(session.totalChunks)
        invariant network.Valid() && network.log == old(network.log) + sent
        invariant Delivery(sent, session, content, maxRetries, i) && AllAcknowledged(sent, session.uploadId, i)
      {
        var start := i * session.chunkSize;
        var end := Min(start + session.chunkSize, |content|);
        var one, tries := UploadChunkWithRetry(session.uploadId, i, PySlice(content, start, end));
        DeliveryGoesOn(sent, tries, session, content, maxRetries, i, one);
        if one.Raised? { GivenUpAfter(sent, tries, session, content, maxRetries, i, one); }
        sent := sent + tries;
        if one.Raised? { return one, sent; }
        i := i + 1;
      }
      r := Done(());
    }

    method InitiateUpload(jobGuid: string, uploadType: string, expectedSize: nat)
      returns (r: Outcome<UploadSession>, ghost x: Exchange)
      requires network.Valid()
      modifies network
      ensures network.Valid() && network.log == old(network.log) + [x]
      ensures x.request == Initiate(jobGuid, uploadType, expectedSize, chunkSize) && r == InitiateOutcome(x.response)
    {
      var response := network.Send(Initiate(jobGuid, uploadType, expectedSize, chunkSize));
      x := network.log[|network.log| - 1];
      r := InitiateOutcome(response);
    }

    method FinalizeUpload(uploadId: string, checksum: string) returns (r: Outcome<()>, ghost x: Exchange)
      requires network.Valid()
      modifies network
      ensures network.Valid() && network.log == old(network.log) + [x]
      ensures x.request == Finalize(uploadId, checksum) && r == FinalizeOutcome(x.response)
    {
      var response := network.Send(Finalize(uploadId, checksum));
      x := network.log[|network.log| - 1];
      r := FinalizeOutcome(response);
    }

    /** Every failure but a cancelled coroutine becomes an unsuccessful result. A chunk size of zero fails before
        anything is sent. */
    method UploadContent(jobGuid: string, content: Bytes, uploadType: string, checksum: string)
      returns (r: Outcome<UploadResult>, ghost all: seq<Exchange>, ghost session: UploadSession)
      requires network.Valid()
      modifies network
      ensures network.Valid() && network.log == old(network.log) + all
      ensures r.Done? && r.value.Uploaded? <==> EndsFinalized(all)
      ensures EndsFinalized(all) ==>
                && r.value == Uploaded(session.uploadId, |content|, checksum)
                && FullUpload(all, Initiate(jobGuid, uploadType, |content|, chunkSize), session, content,
                              maxRetries, checksum)
      ensures r.Raised? <==> chunkSize == 0 || Cancelled(all, maxRetries)
      ensures chunkSize == 0 ==> all == []
    {
      hide Delivery, AllAcknowledged, GivenUp, Tries, ChunkOutcome, Acknowledges;
      all, session := [], UploadSession("", 0, 0);
      if chunkSize == 0 { return Raised(OtherFailure), all, session; }
      var begun, first := InitiateUpload(jobGuid, uploadType, |content|);
      all := [first];
      if begun.Raised? { return AsResult(begun.failure), all, session; }
      session := begun.value;
      var uploaded, sent := UploadChunks(begun.value, content);
      CancelledExactly(sent, maxRetries);
      CancelledBehind(first, sent, maxRetries);
      all := all + sent;
      if uploaded.Raised? { return AsResult(uploaded.failure), all, session; }
      var finalized, last := FinalizeUpload(begun.value.uploadId, checksum);
      all := all + [last];
      assert all[1..|all| - 1] == sent;
      if finalized.Raised? { return AsResult(finalized.failure), all, session; }
      r := Done(Uploaded(begun.value.uploadId, |content|, checksum));
    }
  }
}
