/**
  What the word set guarantees across calls: insertion keeps the bucket and
  counter invariants and adds exactly one entry, `check` answers membership
  up to case in the multiset of stored words, and after `load` that multiset
  is the (loaded part of the) token list.
 */
module DictionaryFacts {
  import opened Ascii
  import opened Hashing
  import opened Dictionary

  /** A word is stored exactly when it sits at some position of some chain. */
  lemma {:induction false} FlattenMembership(bs: seq<Chain>, x: string)
    ensures x in Flatten(bs) <==> exists i, j :: 0 <= i < |bs| && 0 <= j < |bs[i]| && bs[i][j] == x
    decreases |bs|
  {
    if |bs| > 0 {
      var n := |bs| - 1;
      FlattenMembership(bs[..n], x);
      if x in Flatten(bs) {
        if x in Flatten(bs[..n]) {
          var i, j :| 0 <= i < n && 0 <= j < |bs[..n][i]| && bs[..n][i][j] == x;
          assert bs[i][j] == x;
        } else {
          assert x in bs[n];
          var j :| 0 <= j < |bs[n]| && bs[n][j] == x;
        }
      } else {
        forall i, j | 0 <= i < |bs| && 0 <= j < |bs[i]|
          ensures bs[i][j] != x
        {
          if i < n {
            assert bs[..n][i][j] == bs[i][j];
          } else {
            assert bs[n][j] in Flatten(bs);
          }
        }
      }
    }
  }

  /** Prepending `w` to chain `i` adds exactly `w` to the stored multiset. */
  lemma {:induction false} FlattenPrepend(bs: seq<Chain>, i: nat, w: string)
    requires i < |bs|
    ensures multiset(Flatten(bs[i := [w] + bs[i]])) == multiset(Flatten(bs)) + multiset{w}
    decreases |bs|
  {
    var n := |bs| - 1;
    var us := bs[i := [w] + bs[i]];
    assert Flatten(us) == Flatten(us[..n]) + us[n];
    assert Flatten(bs) == Flatten(bs[..n]) + bs[n];
    if i == n {
      assert us[..n] == bs[..n];
      assert multiset([w] + bs[i]) == multiset{w} + multiset(bs[i]);
    } else {
      assert bs[..n][i] == bs[i];
      assert us[..n] == bs[..n][i := [w] + bs[..n][i]];
      assert us[n] == bs[n];
      FlattenPrepend(bs[..n], i, w);
    }
  }

  /** Insertion adds exactly one entry, `w`, and removes nothing. */
  lemma InsertContents(t: Table, w: string)
    requires |t.buckets| == N
    requires IsCString(w)
    ensures Contents(Insert(t, w)) == Contents(t) + multiset{w}
    ensures Total(Insert(t, w)) == Total(t) + 1
  {
    var h := Hash(w);
    var r := Insert(t, w);
    assert r.buckets == t.buckets[h := [w] + t.buckets[h]];
    FlattenPrepend(t.buckets, h, w);
    TotalIsSize(r);
    TotalIsSize(t);
  }

  /** The entry count is the size of the stored multiset. */
  lemma TotalIsSize(t: Table)
    ensures Total(t) == |Contents(t)|
  {
  }

  /** Each insertion moves counter and entry count together, so the counter invariant is kept. */
  lemma InsertCounted(t: Table, w: string)
    requires |t.buckets| == N
    requires IsCString(w)
    requires Counted(t)
    ensures Counted(Insert(t, w))
  {
    InsertContents(t, w);
  }

  /** `check` after an insertion: the new word is found, and so is everything found before. */
  lemma InsertThenCheck(t: Table, w: string, q: string)
    requires |t.buckets| == N
    requires IsCString(w) && IsCString(q)
    ensures Check(Insert(t, w), q) <==> Check(t, q) || CaseCompare(w, q) == 0
  {
    var r := Insert(t, w);
    if Hash(q) == Hash(w) {
      var chain := t.buckets[Hash(w)];
      assert r.buckets[Hash(q)] == [w] + chain;
      if Check(t, q) {
        var j :| 0 <= j < |chain| && CaseCompare(chain[j], q) == 0;
        assert r.buckets[Hash(q)][j + 1] == chain[j];
      }
      if Check(r, q) && CaseCompare(w, q) != 0 {
        var j :| 0 <= j < |r.buckets[Hash(q)]| && CaseCompare(r.buckets[Hash(q)][j], q) == 0;
        assert j > 0 && chain[j - 1] == r.buckets[Hash(q)][j];
      }
    } else if CaseCompare(w, q) == 0 {
      CaseEqualSameBucket(w, q);
    }
  }

  /**
    The central property of `check`: on a table that keeps the bucket
    invariant, walking the one chain of `q`'s bucket finds `q` exactly when
    some stored word equals `q` ignoring case.
   */
  lemma CheckIsMembership(t: Table, q: string)
    requires WellFormed(t)
    requires IsCString(q)
    ensures Check(t, q) <==> exists v :: v in Contents(t) && CaseCompare(v, q) == 0
  {
    var h := Hash(q);
    if Check(t, q) {
      var j :| 0 <= j < |t.buckets[h]| && CaseCompare(t.buckets[h][j], q) == 0;
      FlattenMembership(t.buckets, t.buckets[h][j]);
      assert t.buckets[h][j] in Contents(t);
    }
    if v :| v in Contents(t) && CaseCompare(v, q) == 0 {
      FlattenMembership(t.buckets, v);
      var i, j :| 0 <= i < |t.buckets| && 0 <= j < |t.buckets[i]| && t.buckets[i][j] == v;
      assert IsCString(v) && Hash(v) == i;
      CaseEqualSameBucket(v, q);
      assert CaseCompare(t.buckets[h][j], q) == 0;
    }
  }

  /** `check` gives the same answer for every capitalisation of a query. */
  lemma CheckIgnoresCase(t: Table, a: string, b: string)
    requires WellFormed(t)
    requires IsCString(a) && IsCString(b)
    requires LowerString(a) == LowerString(b)
    ensures Check(t, a) == Check(t, b)
  {
    CheckIsMembership(t, a);
    CheckIsMembership(t, b);
    CaseCompareZeroIff(a, b);
    forall v | v in Contents(t) && IsCString(v)
      ensures CaseCompare(v, a) == 0 <==> CaseCompare(v, b) == 0
    {
      CaseCompareZeroIff(v, a);
      CaseCompareZeroIff(v, b);
    }
    if Check(t, a) {
      var v :| v in Contents(t) && CaseCompare(v, a) == 0;
      StoredIsCString(t, v);
    }
    if Check(t, b) {
      var v :| v in Contents(t) && CaseCompare(v, b) == 0;
      StoredIsCString(t, v);
    }
  }

  /** Every stored word of a well-formed table is a C string. */
  lemma StoredIsCString(t: Table, v: string)
    requires WellFormed(t)
    requires v in Contents(t)
    ensures IsCString(v)
  {
    FlattenMembership(t.buckets, v);
  }

  /** The load loop stores exactly its tokens, duplicates included. */
  lemma {:induction false} InsertAllContents(t: Table, ws: seq<string>)
    requires |t.buckets| == N
    requires forall i :: 0 <= i < |ws| ==> IsCString(ws[i])
    ensures Contents(InsertAll(t, ws)) == Contents(t) + multiset(ws)
    ensures Total(InsertAll(t, ws)) == Total(t) + |ws|
    decreases |ws|
  {
    if |ws| > 0 {
      var n := |ws| - 1;
      var before := InsertAll(t, ws[..n]);
      InsertAllContents(t, ws[..n]);
      InsertContents(before, ws[n]);
      assert ws == ws[..n] + [ws[n]];
      assert multiset(ws) == multiset(ws[..n]) + multiset{ws[n]};
    }
  }

  /** The load loop counts every token it stores, wrapping as an `unsigned int`. */
  lemma {:induction false} InsertAllCount(t: Table, ws: seq<string>)
    requires |t.buckets| == N
    requires forall i :: 0 <= i < |ws| ==> IsCString(ws[i])
    ensures InsertAll(t, ws).wordCount == (t.wordCount + |ws|) % Word32
    decreases |ws|
  {
    if |ws| > 0 {
      var n := |ws| - 1;
      InsertAllCount(t, ws[..n]);
      var c := InsertAll(t, ws[..n]).wordCount;
      assert c == (t.wordCount + n) % Word32;
      WrapIncrement(t.wordCount + n);
    }
  }

  lemma WrapIncrement(x: nat)
    ensures (x % Word32 + 1) % Word32 == (x + 1) % Word32
  {
  }

  /** After the reset there is nothing stored. */
  lemma EmptyContents(count: u32)
    ensures Contents(Table(EmptyBuckets(), count)) == multiset{}
  {
    var bs := EmptyBuckets();
    if Flatten(bs) != [] {
      FlattenMembership(bs, Flatten(bs)[0]);
    }
  }

  /**
    A successful `load` stores every token of the list once per occurrence,
    and the counter advances by the number of tokens.
   */
  lemma LoadStoresAllTokens(t: Table, tokens: seq<string>, allocFailsAt: Option<nat>)
    requires AllTokens(tokens)
    requires allocFailsAt.None? || allocFailsAt.value >= |tokens|
    ensures Load(t, Opened(tokens), allocFailsAt).ok
    ensures Contents(Load(t, Opened(tokens), allocFailsAt).table) == multiset(tokens)
    ensures Size(Load(t, Opened(tokens), allocFailsAt).table) == (t.wordCount + |tokens|) % Word32
  {
    var cleared := Table(EmptyBuckets(), t.wordCount);
    EmptyContents(t.wordCount);
    InsertAllContents(cleared, tokens);
    InsertAllCount(cleared, tokens);
  }

  /**
    A `load` whose allocation fails at token k reports failure and leaves
    tokens 0..k-1 in the table, counted.
   */
  lemma LoadKeepsPrefixOnAllocFailure(t: Table, tokens: seq<string>, k: nat)
    requires k < |tokens|
    requires AllTokens(tokens[..k + 1])
    ensures !Load(t, Opened(tokens), Some(k)).ok
    ensures Contents(Load(t, Opened(tokens), Some(k)).table) == multiset(tokens[..k])
    ensures Size(Load(t, Opened(tokens), Some(k)).table) == (t.wordCount + k) % Word32
  {
    var cleared := Table(EmptyBuckets(), t.wordCount);
    EmptyContents(t.wordCount);
    InsertAllContents(cleared, tokens[..k]);
    InsertAllCount(cleared, tokens[..k]);
  }

  /**
    Headline: once `load` has read the whole list, `check(q)` is true exactly
    when some token of the list equals `q` ignoring case.
   */
  lemma LoadThenCheck(t: Table, tokens: seq<string>, q: string)
    requires AllTokens(tokens)
    requires IsCString(q)
    ensures Load(t, Opened(tokens), None).ok
    ensures Check(Load(t, Opened(tokens), None).table, q)
        <==> exists i :: 0 <= i < |tokens| && CaseCompare(tokens[i], q) == 0
  {
    var r := Load(t, Opened(tokens), None);
    LoadStoresAllTokens(t, tokens, None);
    CheckIsMembership(r.table, q);
    if exists i :: 0 <= i < |tokens| && CaseCompare(tokens[i], q) == 0 {
      var i :| 0 <= i < |tokens| && CaseCompare(tokens[i], q) == 0;
      assert tokens[i] in multiset(tokens);
    }
  }

  /** After an allocation failure at token k, `check` answers for tokens 0..k-1 only. */
  lemma AllocFailureThenCheck(t: Table, tokens: seq<string>, k: nat, q: string)
    requires k < |tokens|
    requires AllTokens(tokens[..k + 1])
    requires IsCString(q)
    ensures Check(Load(t, Opened(tokens), Some(k)).table, q)
        <==> exists i :: 0 <= i < k && CaseCompare(tokens[i], q) == 0
  {
    var r := Load(t, Opened(tokens), Some(k));
    LoadKeepsPrefixOnAllocFailure(t, tokens, k);
    CheckIsMembership(r.table, q);
    if exists i :: 0 <= i < k && CaseCompare(tokens[i], q) == 0 {
      var i :| 0 <= i < k && CaseCompare(tokens[i], q) == 0;
      assert tokens[..k][i] in multiset(tokens[..k]);
    }
    if v :| v in multiset(tokens[..k]) && CaseCompare(v, q) == 0 {
      var i :| 0 <= i < k && tokens[..k][i] == v;
      assert CaseCompare(tokens[i], q) == 0;
    }
  }

  /** A list that cannot be opened leaves every bucket empty, so `check` finds nothing. */
  lemma UnopenableThenCheck(t: Table, q: string)
    requires IsCString(q)
    ensures !Load(t, Unopenable, None).ok
    ensures !Check(Load(t, Unopenable, None).table, q)
  {
  }

  /**
    From the program's initial state, `size` after a full `load` is the
    number of tokens, duplicates included, as an `unsigned int`, and the
    counter invariant holds.
   */
  lemma SizeAfterLoad(tokens: seq<string>)
    requires AllTokens(tokens)
    ensures Size(Load(Empty(), Opened(tokens), None).table) == |tokens| % Word32
    ensures Counted(Load(Empty(), Opened(tokens), None).table)
  {
    var cleared := Table(EmptyBuckets(), 0);
    EmptyContents(0);
    InsertAllContents(cleared, tokens);
    InsertAllCount(cleared, tokens);
    TotalIsSize(cleared);
  }

  /** Words that agree letter for letter after folding compare equal under `strcasecmp`. */
  lemma SameFoldedMatch(a: string, b: string)
    requires IsCString(a) && IsCString(b)
    requires LowerString(a) == LowerString(b)
    ensures CaseCompare(a, b) == 0
  {
    CaseCompareZeroIff(a, b);
  }

  /** The three example words are tokens a LENGTH of at least 6 admits. */
  lemma FruitTokens(tokens: seq<string>)
    requires 6 <= LENGTH
    requires tokens == ["apple", "Banana", "cherry"]
    ensures AllTokens(tokens)
  {
    assert IsToken(tokens[0]) && IsToken(tokens[1]) && IsToken(tokens[2]);
  }

  /** One example word and its query agree letter for letter after folding. */
  lemma FruitMatch(token: string, query: string)
    requires (token, query) in {("apple", "APPLE"), ("Banana", "banana"), ("cherry", "Cherry")}
    ensures IsCString(query) && CaseCompare(token, query) == 0
  {
    assert LowerString(token) == LowerString(query);
    SameFoldedMatch(token, query);
  }

  /** Each example word matches its query in another capitalisation. */
  lemma FruitMatches(tokens: seq<string>, queries: seq<string>)
    requires tokens == ["apple", "Banana", "cherry"]
    requires queries == ["APPLE", "banana", "Cherry", "durian"]
    ensures forall i :: 0 <= i < 3 ==> IsCString(queries[i]) && CaseCompare(tokens[i], queries[i]) == 0
  {
    FruitMatch(tokens[0], queries[0]);
    FruitMatch(tokens[1], queries[1]);
    FruitMatch(tokens[2], queries[2]);
  }

  /** "durian" differs from each example word in its first letter. */
  lemma DurianMatchesNone(tokens: seq<string>, durian: string)
    requires tokens == ["apple", "Banana", "cherry"]
    requires durian == "durian"
    ensures IsCString(durian)
    ensures forall i :: 0 <= i < |tokens| ==> CaseCompare(tokens[i], durian) != 0
  {
    assert CaseCompare(tokens[0], durian) != 0;
    assert CaseCompare(tokens[1], durian) != 0;
    assert CaseCompare(tokens[2], durian) != 0;
  }

  /** A full `load` from the initial state finds a query that matches token `i`. */
  lemma LoadFinds(tokens: seq<string>, i: nat, q: string)
    requires AllTokens(tokens)
    requires IsCString(q)
    requires i < |tokens| && CaseCompare(tokens[i], q) == 0
    ensures Check(Load(Empty(), Opened(tokens), None).table, q)
  {
    LoadThenCheck(Empty(), tokens, q);
  }

  /** A full `load` from the initial state does not find a query that matches no token. */
  lemma LoadMisses(tokens: seq<string>, q: string)
    requires AllTokens(tokens)
    requires IsCString(q)
    requires forall i :: 0 <= i < |tokens| ==> CaseCompare(tokens[i], q) != 0
    ensures !Check(Load(Empty(), Opened(tokens), None).table, q)
  {
    LoadThenCheck(Empty(), tokens, q);
  }

  /**
    A worked example: loading "apple", "Banana", "cherry" into the initial
    state finds "APPLE", "banana" and "Cherry", does not find "durian", and
    counts three words.
   */
  lemma FruitExample(tokens: seq<string>, queries: seq<string>)
    requires 6 <= LENGTH
    requires tokens == ["apple", "Banana", "cherry"]
    requires queries == ["APPLE", "banana", "Cherry", "durian"]
    ensures Load(Empty(), Opened(tokens), None).ok
    ensures Check(Load(Empty(), Opened(tokens), None).table, queries[0])
    ensures Check(Load(Empty(), Opened(tokens), None).table, queries[1])
    ensures Check(Load(Empty(), Opened(tokens), None).table, queries[2])
    ensures !Check(Load(Empty(), Opened(tokens), None).table, queries[3])
    ensures Size(Load(Empty(), Opened(tokens), None).table) == 3
  {
    FruitTokens(tokens);
    FruitMatches(tokens, queries);
    DurianMatchesNone(tokens, queries[3]);
    SizeAfterLoad(tokens);
    LoadFinds(tokens, 0, queries[0]);
    LoadFinds(tokens, 1, queries[1]);
    LoadFinds(tokens, 2, queries[2]);
    LoadMisses(tokens, queries[3]);
  }
}
