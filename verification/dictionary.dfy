/**
  The word set itself: a fixed array of N bucket chains and a running word
  count. `load` prepends each token of the word list to the chain of its
  bucket, `check` walks one chain comparing with `strcasecmp`, `size` reports
  the counter and `unload` releases every entry.

  A chain is a sequence of stored words, head first. The word list is the
  sequence of tokens `fscanf("%s")` would produce; whether the file opens and
  at which token `malloc` fails are parameters.
 */
module Dictionary {
  import opened Ascii
  import opened Hashing

  /** Longest word a node can hold; fixed in the header, whose value is not part of this model. */
  const LENGTH: nat

  /** 2^32: `unsigned int` arithmetic wraps modulo this. */
  const Word32: nat := 0x1_0000_0000

  type u32 = x: int | 0 <= x < 0x1_0000_0000

  /** Stored words, most recently inserted first. */
  type Chain = seq<string>

  /** The `table` array and the `word_count` counter. */
  datatype Table = Table(buckets: seq<Chain>, wordCount: u32)

  datatype Option<T> = None | Some(value: T)

  /** The word list: either it cannot be opened, or it yields its whitespace-separated tokens. */
  datatype Source = Unopenable | Opened(tokens: seq<string>)

  /** What `load` returns, together with the table it leaves behind. */
  datatype LoadResult = LoadResult(ok: bool, table: Table)

  predicate IsSpace(c: char) {
    c == ' ' || c == '\t' || c == '\n' || c == '\r' || c == '\U{0B}' || c == '\U{0C}'
  }

  /** A token `fscanf("%s")` can deliver into the LENGTH + 1 buffer. */
  predicate IsToken(w: string) {
    && 0 < |w| <= LENGTH
    && IsCString(w)
    && forall i :: 0 <= i < |w| ==> !IsSpace(w[i])
  }

  predicate AllTokens(ws: seq<string>) {
    forall i :: 0 <= i < |ws| ==> IsToken(ws[i])
  }

  /**
    The tokens `load` actually reads from an opened list: when the allocation
    for token k fails, tokens 0..k and nothing after; otherwise all of them.
   */
  function TokensRead(tokens: seq<string>, allocFailsAt: Option<nat>): (read: seq<string>)
    ensures read <= tokens
    ensures allocFailsAt.None? ==> read == tokens
  {
    if allocFailsAt.Some? && allocFailsAt.value < |tokens| then tokens[..allocFailsAt.value + 1] else tokens
  }

  /** N empty chains: the state of a freshly reset array. */
  function EmptyBuckets(): (bs: seq<Chain>)
    ensures |bs| == N
    ensures forall i :: 0 <= i < N ==> bs[i] == []
  {
    seq(N, i => [])
  }

  /** The program's initial state: every bucket NULL and a zero counter. */
  function Empty(): (t: Table) {
    Table(EmptyBuckets(), 0)
  }

  /** All stored words, bucket 0 first and each chain head first. */
  function Flatten(bs: seq<Chain>): (all: seq<string>) {
    if |bs| == 0 then [] else Flatten(bs[..|bs| - 1]) + bs[|bs| - 1]
  }

  /** The multiset of stored words: duplicates are separate entries. */
  function Contents(t: Table): (stored: multiset<string>) {
    multiset(Flatten(t.buckets))
  }

  /** Number of entries reachable from the array. */
  function Total(t: Table): (entries: nat) {
    |Flatten(t.buckets)|
  }

  /** Bucket invariant: N chains of C strings, each word stored in the bucket it hashes to. */
  predicate WellFormed(t: Table) {
    && |t.buckets| == N
    && forall i, j :: 0 <= i < N && 0 <= j < |t.buckets[i]| ==>
         IsCString(t.buckets[i][j]) && Hash(t.buckets[i][j]) == i
  }

  /** Counter invariant: the counter is the number of entries, as a wrapping `unsigned int`. */
  predicate Counted(t: Table) {
    t.wordCount == Total(t) % Word32
  }

  /**
    One iteration of the load loop: `w` becomes the head of chain `hash(w)`,
    the old chain its tail, and the counter goes up by one (wrapping).
   */
  function Insert(t: Table, w: string): (r: Table)
    requires |t.buckets| == N
    requires IsCString(w)
    ensures |r.buckets| == N
    ensures r.buckets[Hash(w)] == [w] + t.buckets[Hash(w)]
    ensures forall i :: 0 <= i < N && i != Hash(w) ==> r.buckets[i] == t.buckets[i]
    ensures r.wordCount == (t.wordCount + 1) % Word32
  {
    var i := Hash(w);
    Table(t.buckets[i := [w] + t.buckets[i]], (t.wordCount + 1) % Word32)
  }

  /** The load loop over a list of tokens, first token inserted first. */
  function InsertAll(t: Table, ws: seq<string>): (r: Table)
    requires |t.buckets| == N
    requires forall i :: 0 <= i < |ws| ==> IsCString(ws[i])
    ensures |r.buckets| == N
    decreases |ws|
  {
    if |ws| == 0 then t
    else Insert(InsertAll(t, ws[..|ws| - 1]), ws[|ws| - 1])
  }

  /**
    `load`: resets every bucket to empty (the counter is left as it was), then
    reads tokens until the end of the list. An unopenable list stops right
    after the reset; a failed allocation for token k stops with tokens
    0..k-1 inserted. Both failures report false.
   */
  function Load(t: Table, src: Source, allocFailsAt: Option<nat>): (r: LoadResult)
    requires src.Opened? ==> AllTokens(TokensRead(src.tokens, allocFailsAt))
    ensures WellFormed(r.table)
    ensures r.ok <==> src.Opened? && (allocFailsAt.None? || allocFailsAt.value >= |src.tokens|)
    ensures src.Unopenable? ==> r.table == Table(EmptyBuckets(), t.wordCount)
  {
    var cleared := Table(EmptyBuckets(), t.wordCount);
    EmptyWellFormed(t.wordCount);
    match src
    case Unopenable => LoadResult(false, cleared)
    case Opened(tokens) =>
      if allocFailsAt.Some? && allocFailsAt.value < |tokens| then
        var k := allocFailsAt.value;
        assert forall i :: 0 <= i < k ==> tokens[..k][i] == tokens[..k + 1][i];
        InsertAllWellFormed(cleared, tokens[..k]);
        LoadResult(false, InsertAll(cleared, tokens[..k]))
      else
        InsertAllWellFormed(cleared, tokens);
        LoadResult(true, InsertAll(cleared, tokens))
  }

  /**
    Walks a chain from its head and reports whether some stored word equals
    `q` under `strcasecmp`.
   */
  function ChainHas(chain: Chain, q: string): (found: bool)
    ensures found <==> exists j :: 0 <= j < |chain| && CaseCompare(chain[j], q) == 0
  {
    if |chain| == 0 then false
    else if CaseCompare(chain[0], q) == 0 then true
    else
      assert forall j :: 1 <= j < |chain| ==> chain[j] == chain[1..][j - 1];
      ChainHas(chain[1..], q)
  }

  /** `check`: looks only in the chain of `q`'s bucket; the table is not changed. */
  function Check(t: Table, q: string): (found: bool)
    requires |t.buckets| == N
    requires IsCString(q)
  {
    ChainHas(t.buckets[Hash(q)], q)
  }

  /** `check` consults exactly one chain, the one at bucket `hash(q)`, and nothing else of the table. */
  lemma CheckWalksOneChain(t: Table, q: string)
    requires |t.buckets| == N
    requires IsCString(q)
    ensures Check(t, q) <==> exists j :: 0 <= j < |t.buckets[Hash(q)]| && CaseCompare(t.buckets[Hash(q)][j], q) == 0
    ensures forall u: Table :: |u.buckets| == N && u.buckets[Hash(q)] == t.buckets[Hash(q)] ==> Check(u, q) == Check(t, q)
  {
  }

  /** `size`: the counter, which is the number of stored entries (as an `unsigned int`) whenever the counter invariant holds. */
  function Size(t: Table): (n: u32)
    ensures Counted(t) ==> n == Total(t) % Word32
  {
    t.wordCount
  }

  /**
    `unload`: walks bucket 0 to N-1 and each chain from its head, releasing
    every entry once. `released` lists the entries in the order they are
    freed; `after` has no live entries. The counter is not touched.
   */
  method Unload(t: Table) returns (ok: bool, released: seq<string>, after: Table)
    requires |t.buckets| == N
    ensures ok
    ensures released == Flatten(t.buckets)
    ensures multiset(released) == Contents(t)
    ensures after.buckets == EmptyBuckets() && after.wordCount == t.wordCount
  {
    released := [];
    var i := 0;
    while i < N
      invariant 0 <= i <= N
      invariant released == Flatten(t.buckets[..i])
    {
      var chain := t.buckets[i];
      var j := 0;
      while j < |chain|
        invariant 0 <= j <= |chain|
        invariant released == Flatten(t.buckets[..i]) + chain[..j]
      {
        released := released + [chain[j]];
        assert chain[..j + 1] == chain[..j] + [chain[j]];
        j := j + 1;
      }
      assert chain[..j] == chain;
      assert t.buckets[..i + 1][..i] == t.buckets[..i];
      i := i + 1;
    }
    assert t.buckets[..N] == t.buckets;
    ok := true;
    after := Table(EmptyBuckets(), t.wordCount);
  }

  lemma EmptyWellFormed(count: u32)
    ensures WellFormed(Table(EmptyBuckets(), count))
  {
  }

  /** Inserting a C string keeps every word in its own bucket. */
  lemma InsertWellFormed(t: Table, w: string)
    requires WellFormed(t)
    requires IsCString(w)
    ensures WellFormed(Insert(t, w))
  {
  }

  /** The load loop keeps every word in its own bucket. */
  lemma {:induction false} InsertAllWellFormed(t: Table, ws: seq<string>)
    requires WellFormed(t)
    requires forall i :: 0 <= i < |ws| ==> IsCString(ws[i])
    ensures WellFormed(InsertAll(t, ws))
    decreases |ws|
  {
    if |ws| > 0 {
      InsertAllWellFormed(t, ws[..|ws| - 1]);
      InsertWellFormed(InsertAll(t, ws[..|ws| - 1]), ws[|ws| - 1]);
    }
  }
}
