/**
 * The ungated draw, `GET /getCardId?deck=<deck>&n=<n>`: the deck name is
 * trimmed, made path-safe and checked against the allow-list, `n` is
 * clamped to [1, 50], the deck's document is read from the bucket, and
 * `min(n, pool size)` ids are sampled from its pool.
 */
module Draw {
  import opened Wrappers
  import opened JsValue
  import opened Text
  import opened Sampling
  import opened DeckCache

  const MaxDraw: nat := 50

  /** `deckRaw.replace(/[\/\\]/g, "-")` */
  function SafeDeckName(s: string): (r: string)
    ensures |r| == |s|
    ensures '/' !in r && '\\' !in r
    ensures forall k :: 0 <= k < |s| && s[k] != '/' && s[k] != '\\' ==> r[k] == s[k]
    ensures forall k :: 0 <= k < |s| && (s[k] == '/' || s[k] == '\\') ==> r[k] == '-'
  {
    if s == [] then []
    else [if s[0] == '/' || s[0] == '\\' then '-' else s[0]] + SafeDeckName(s[1..])
  }

  /** What `parseInt(searchParams.get("n") || "1", 10)` yields. */
  datatype ParsedInt = NaN | PosInfinity | NegInfinity | Finite(value: int)

  /** `Number.isFinite(nReq) && nReq > 0 ? Math.min(nReq, 50) : 1`: the
      request when it lies in [1, 50], 50 above, 1 for anything that is not
      a positive finite number (an infinite one included). */
  function ClampCount(nReq: ParsedInt): (n: nat)
    ensures 1 <= n <= MaxDraw
    ensures nReq.Finite? && 1 <= nReq.value <= MaxDraw ==> n == nReq.value
    ensures nReq.Finite? && nReq.value > MaxDraw ==> n == MaxDraw
    ensures !(nReq.Finite? && nReq.value > 0) ==> n == 1
  {
    if nReq.Finite? && nReq.value > 0 then
      (if nReq.value < MaxDraw then nReq.value else MaxDraw)
    else 1
  }

  /** `ids.map(String)` */
  function Texts(items: seq<Value>): (texts: seq<string>)
    ensures |texts| == |items|
    ensures forall k :: 0 <= k < |items| ==> texts[k] == ToJsString(items[k])
  {
    seq(|items|, k requires 0 <= k < |items| => ToJsString(items[k]))
  }

  /** `Array.isArray(obj?.ids) ? obj.ids.map(String).filter(Boolean) : []`:
      nothing when `ids` is not an array, and otherwise every non-empty
      `String(id)`, as often as it occurs (`PoolInOrder` adds that they keep
      the order of the array). */
  function Pool(obj: Value): (pool: seq<string>)
    ensures forall k :: 0 <= k < |pool| ==> pool[k] != ""
    ensures !Field(obj, "ids").JArr? ==> pool == []
    ensures Field(obj, "ids").JArr? ==>
      multiset(pool) == multiset(Texts(Field(obj, "ids").items))["" := 0]
  {
    var ids := Field(obj, "ids");
    if ids.JArr? then
      var pool := NonEmpty(Texts(ids.items));
      assert forall k :: 0 <= k < |pool| ==> pool[k] in pool;
      pool
    else []
  }

  /** The pool of an `ids` array lists its non-empty `String(id)`s in the
      order of the array, one for each such id: `at[t]` is the position of
      the id that gives `pool[t]`. */
  lemma PoolInOrder(obj: Value)
    requires Field(obj, "ids").JArr?
    ensures var items, pool := Field(obj, "ids").items, Pool(obj);
      var at := NonEmptyIndices(Texts(items));
      && |at| == |pool|
      && (forall t :: 0 <= t < |at| ==> at[t] < |items| && pool[t] == ToJsString(items[at[t]]))
      && (forall s, t :: 0 <= s < t < |at| ==> at[s] < at[t])
      && (forall i :: 0 <= i < |items| && ToJsString(items[i]) != "" ==> exists t :: 0 <= t < |at| && at[t] == i)
  {
    var items := Field(obj, "ids").items;
    var texts := Texts(items);
    NonEmptyInInputOrder(texts);
    forall i | 0 <= i < |items| && ToJsString(items[i]) != ""
      ensures exists t :: 0 <= t < |NonEmptyIndices(texts)| && NonEmptyIndices(texts)[t] == i
    {
      assert texts[i] != "";
    }
  }

  datatype DrawError = MissingDeck | InvalidDeckName | CacheNotFound | R2GetError | CacheEmpty | UnhandledException

  /** 400 for a bad request, 404 when the deck has no usable document, 500
      when the bucket read fails or the handler throws. */
  function DrawStatus(e: DrawError): (status: int)
    ensures status == 400 <==> e == MissingDeck || e == InvalidDeckName
    ensures status == 404 <==> e == CacheNotFound || e == CacheEmpty
    ensures status == 500 <==> e == R2GetError || e == UnhandledException
  {
    match e
    case MissingDeck => 400
    case InvalidDeckName => 400
    case CacheNotFound => 404
    case R2GetError => 500
    case CacheEmpty => 404
    case UnhandledException => 500
  }

  /** What the handler decides before sampling: an error, or the pool to
      sample `count` ids from. */
  datatype Plan =
    | Refuse(error: DrawError, deck: string)
    | Sample(deck: string, pool: seq<string>, count: nat, updatedAt: Value)

  /** The decision of `GET /getCardId`, step by step; `deckParam` is the
      `deck` query parameter, if present. A blank parameter is missing_deck
      (with no deck to report), a name outside the allow-list after the
      path-safe rewrite is invalid_deck, and an allowed deck is read as
      `ReadPlan` says. */
  function DrawPlan(deckParam: Option<string>, nReq: ParsedInt, bucket: Bucket): (plan: Plan)
    ensures var t := Trim(if deckParam.Some? then deckParam.value else "");
      var deck := SafeDeckName(t);
      && (plan == Refuse(MissingDeck, "") <==> t == "")
      && (plan == Refuse(InvalidDeckName, deck) <==> t != "" && deck !in Allowed)
      && (t != "" && deck in Allowed ==> plan == ReadPlan(deck, ClampCount(nReq), bucket))
  {
    var deckRaw := Trim(if deckParam.Some? then deckParam.value else "");
    if deckRaw == "" then Refuse(MissingDeck, "")
    else
      var deck := SafeDeckName(deckRaw);
      if deck !in Allowed then Refuse(InvalidDeckName, deck)
      else ReadPlan(deck, ClampCount(nReq), bucket)
  }

  /** `obj.ids.map(String)` throws: `ids` is an array one of whose items
      `String` throws on. */
  predicate PoolThrows(obj: Value)
    ensures PoolThrows(obj) <==> Field(obj, "ids").JArr? && StringThrows(Field(obj, "ids"))
  {
    var ids := Field(obj, "ids");
    ids.JArr? && exists k :: 0 <= k < |ids.items| && StringThrows(ids.items[k])
  }

  /** The part of the decision that reads the bucket, for an accepted deck
      name and a clamped count `n`: no document is cache_not_found, content
      that does not parse is r2_get_error, an `ids` array with an item
      `String` throws on is unhandled_exception, an empty pool is cache_empty, and
      otherwise `min(n, pool size)` ids of the document's pool are sampled,
      with its `updatedAt` (`null` when it has none). */
  function ReadPlan(deck: string, n: nat, bucket: Bucket): (plan: Plan)
    ensures var key := CacheKey(deck);
      && (plan == Refuse(CacheNotFound, deck) <==> key !in bucket)
      && (plan == Refuse(R2GetError, deck) <==> key in bucket && bucket[key].Unreadable?)
      && (plan == Refuse(UnhandledException, deck) <==> key in bucket && bucket[key].Doc? && PoolThrows(bucket[key].body))
      && (plan == Refuse(CacheEmpty, deck) <==>
            key in bucket && bucket[key].Doc? && !PoolThrows(bucket[key].body) && Pool(bucket[key].body) == [])
      && (plan.Sample? <==>
            key in bucket && bucket[key].Doc? && !PoolThrows(bucket[key].body) && Pool(bucket[key].body) != [])
      && (plan.Refuse? ==> plan.deck == deck)
      && (plan.Sample? ==>
            var obj := bucket[key].body;
            && plan.deck == deck && plan.pool == Pool(obj)
            && plan.count == (if n < |plan.pool| then n else |plan.pool|)
            && var stamp := Field(obj, "updatedAt");
               plan.updatedAt == (if stamp.JUndef? || stamp.JNull? then JNull else stamp))
  {
    var key := CacheKey(deck);
    if key !in bucket then Refuse(CacheNotFound, deck)
    else if bucket[key].Unreadable? then Refuse(R2GetError, deck)
    else
      var obj := bucket[key].body;
      if PoolThrows(obj) then Refuse(UnhandledException, deck)
      else
        var pool := Pool(obj);
        if pool == [] then Refuse(CacheEmpty, deck)
        else Sample(deck, pool, if n < |pool| then n else |pool|,
                    Coalesce(Field(obj, "updatedAt"), JNull))
  }

  /** The draw samples between 1 and 50 ids, never more than the pool
      holds, from an allowed deck's non-empty pool, and the bucket is read
      at that deck's key only. */
  lemma SamplePlanBounds(deckParam: Option<string>, nReq: ParsedInt, bucket: Bucket)
    requires DrawPlan(deckParam, nReq, bucket).Sample?
    ensures var plan := DrawPlan(deckParam, nReq, bucket);
      && plan.deck in Allowed
      && CacheKey(plan.deck) in bucket && bucket[CacheKey(plan.deck)].Doc?
      && plan.pool == Pool(bucket[CacheKey(plan.deck)].body) != []
      && 1 <= plan.count <= MaxDraw
      && plan.count == (if ClampCount(nReq) < |plan.pool| then ClampCount(nReq) else |plan.pool|)
  {
  }

  lemma {:induction false} SafeDeckNameAt(s: string, k: nat)
    requires k < |s|
    ensures SafeDeckName(s)[k] == if s[k] == '/' || s[k] == '\\' then '-' else s[k]
  {
    if k > 0 {
      SafeDeckNameAt(s[1..], k - 1);
    }
  }

  /** A deck name with a slash or a backslash in it is never served: the
      path-safe rewrite puts a '-' in its place, and no allowed deck
      contains one. */
  lemma SlashedDeckRefused(deckParam: Option<string>, nReq: ParsedInt, bucket: Bucket)
    requires deckParam.Some?
    requires var t := Trim(deckParam.value); t != "" && ('/' in t || '\\' in t)
    ensures DrawPlan(deckParam, nReq, bucket) == Refuse(InvalidDeckName, SafeDeckName(Trim(deckParam.value)))
  {
    var t := Trim(deckParam.value);
    var k :| 0 <= k < |t| && (t[k] == '/' || t[k] == '\\');
    SafeDeckNameAt(t, k);
    var deck := SafeDeckName(t);
    assert deck[k] == '-';
    AllowedAreLowerWords(deck);
    assert !LowerWord(deck);
  }

  /** A name without slashes is left as it is by the path-safe rewrite. */
  lemma {:induction false} SafeDeckNameKeeps(s: string)
    requires '/' !in s && '\\' !in s
    ensures SafeDeckName(s) == s
  {
    if s != [] {
      SafeDeckNameKeeps(s[1..]);
    }
  }

  /** The oracle `picks` is long enough and in range for the shuffle the
      plan calls for. */
  predicate PicksFit(plan: Plan, picks: seq<int>) {
    plan.Sample? ==>
      if plan.count == |plan.pool| then ShufflePicks(|plan.pool|, picks)
      else PartialPicks(|plan.pool|, plan.count, picks)
  }

  /** The response carries out the plan: a refusal with the plan's error, its
      status and its deck; a draw of `count` ids, the full reference shuffle
      of the pool when all are taken and the first `count` of the partial one
      otherwise, a permutation of the pool in the first case and a
      sub-multiset of it in both. */
  predicate Answers(plan: Plan, picks: seq<int>, resp: Response)
    requires PicksFit(plan, picks)
    requires plan.Sample? ==> plan.count <= |plan.pool|
  {
    && (plan.Refuse? ==> resp == Failure(plan.error, plan.deck, DrawStatus(plan.error)))
    && (plan.Sample? ==>
          && resp.Success?
          && resp.deck == plan.deck
          && resp.totalInDeck == |plan.pool|
          && resp.updatedAt == plan.updatedAt
          && |resp.ids| == plan.count
          && resp.ids == (if plan.count == |plan.pool| then ShuffleDown(plan.pool, picks, 0)
                          else ShuffleUp(plan.pool, picks, plan.count, plan.count)[..plan.count])
          && multiset(resp.ids) <= multiset(plan.pool)
          && (plan.count == |plan.pool| ==> multiset(resp.ids) == multiset(plan.pool)))
  }

  /** `GET /getCardId` once the bucket binding is known to exist: the
      steps up to the sampling are `DrawPlan`; a refusal is answered with
      its error and status, and a sample is drawn as step 5 says. */
  method GetCardId(deckParam: Option<string>, nReq: ParsedInt, bucket: Bucket, picks: seq<int>)
    returns (resp: Response, ghost pos: seq<int>)
    requires PicksFit(DrawPlan(deckParam, nReq, bucket), picks)
    ensures Answers(DrawPlan(deckParam, nReq, bucket), picks, resp)
    ensures var plan := DrawPlan(deckParam, nReq, bucket);
      plan.Sample? && resp.Success? ==> DrawnFrom(resp.ids, plan.pool, pos)
  {
    var plan := DrawPlan(deckParam, nReq, bucket);
    if plan.Sample? {
      SamplePlanBounds(deckParam, nReq, bucket);
    }
    resp, pos := Respond(plan, picks);
  }

  /** The response to a plan: a refusal is answered with its error and
      status, and a sample is drawn as step 5 says and reported with the
      pool size and the document's time. */
  method Respond(plan: Plan, picks: seq<int>) returns (resp: Response, ghost pos: seq<int>)
    requires PicksFit(plan, picks)
    requires plan.Sample? ==> 0 < plan.count <= |plan.pool| && plan.count <= MaxDraw
    ensures Answers(plan, picks, resp)
    ensures plan.Sample? && resp.Success? ==> DrawnFrom(resp.ids, plan.pool, pos)
  {
    pos := [];
    match plan {
      case Refuse(error, deck) =>
        resp := Failure(error, deck, DrawStatus(error));
      case Sample(deck, pool, count, updatedAt) =>
        var ids;
        ids, pos := Choose(pool, count, picks);
        resp := Success(deck, ids, |pool|, updatedAt);
    }
  }

  /** Step 5 of the draw, for a count already clamped to at most 50: the
      full shuffle when all of the pool is asked for, the partial one otherwise; either way `count` ids from distinct
      places of the pool, a permutation of it when all are taken. */
  method Choose(pool: seq<string>, count: nat, picks: seq<int>)
    returns (ids: seq<string>, ghost pos: seq<int>)
    requires 0 < count <= |pool| && count <= MaxDraw
    requires if count == |pool| then ShufflePicks(|pool|, picks)
             else PartialPicks(|pool|, count, picks)
    ensures |ids| == count
    ensures ids == (if count == |pool| then ShuffleDown(pool, picks, 0)
                    else ShuffleUp(pool, picks, count, count)[..count])
    ensures DrawnFrom(ids, pool, pos)
    ensures multiset(ids) <= multiset(pool)
    ensures count == |pool| ==> multiset(ids) == multiset(pool)
  {
    if count == |pool| {
      ids, pos := ShuffleThenSlice(pool, count, picks);
      assert ShuffleDown(pool, picks, 0)[..count] == ShuffleDown(pool, picks, 0);
    } else {
      assert SampleCount(|pool|, count) == count;
      ids, pos := SampleUnique(pool, count, picks);
    }
  }

  datatype Response =
    | Failure(error: DrawError, deck: string, status: int)
    | Success(deck: string, ids: seq<string>, totalInDeck: nat, updatedAt: Value)

  /** A saved deck is served from what the batch wrote: after a batch in
      which entry `i` is the last one saved for its deck, drawing that deck
      samples from exactly the entry's normalised id list and reports the
      entry's `updatedAt`. */
  lemma DrawServesLastSavedIds(entries: seq<Value>, oracle: seq<EntryOracle>, bucket: Bucket, i: nat, nReq: ParsedInt)
    requires |oracle| >= |entries|
    requires var outs := Outcomes(entries, oracle);
      && i < |outs| && outs[i].Saved?
      && forall j :: i < j < |outs| && outs[j].Saved? ==> outs[j].entry.key != outs[i].entry.key
    ensures var outs := Outcomes(entries, oracle);
      var deck, ids := outs[i].entry.deck, EntryIds(entries[i]);
      var n := ClampCount(nReq);
      DrawPlan(Some(deck), nReq, Written(bucket, outs, Documents(entries, oracle)))
        == Sample(deck, ids, if n < |ids| then n else |ids|, JStr(oracle[i].now))
  {
    var outs, docs := Outcomes(entries, oracle), Documents(entries, oracle);
    var deck, ids := outs[i].entry.deck, EntryIds(entries[i]);
    LastSavedWritten(entries, oracle, bucket, i);
    DocumentServed(deck, nReq, Written(bucket, outs, docs), ids, oracle[i].now);
  }

  /** After the batch, the key of the last entry saved for a deck holds
      that entry's document, and the deck is allowed with a non-empty id
      list. */
  lemma LastSavedWritten(entries: seq<Value>, oracle: seq<EntryOracle>, bucket: Bucket, i: nat)
    requires |oracle| >= |entries|
    requires var outs := Outcomes(entries, oracle);
      && i < |outs| && outs[i].Saved?
      && forall j :: i < j < |outs| && outs[j].Saved? ==> outs[j].entry.key != outs[i].entry.key
    ensures var outs := Outcomes(entries, oracle);
      var deck, ids := outs[i].entry.deck, EntryIds(entries[i]);
      var written := Written(bucket, outs, Documents(entries, oracle));
      && deck in Allowed && ids != []
      && CacheKey(deck) in written && written[CacheKey(deck)] == Doc(DeckDocument(ids, oracle[i].now))
  {
    var outs, docs := Outcomes(entries, oracle), Documents(entries, oracle);
    var deck, ids := outs[i].entry.deck, EntryIds(entries[i]);
    assert outs[i] == Decide(i, EntryDeck(entries[i]), ids, oracle[i]);
    DecideReportsFirstFailure(i, EntryDeck(entries[i]), ids, oracle[i]);
    assert deck in Allowed && |ids| >= 1 && outs[i].entry.key == CacheKey(deck);
    assert docs[i] == DeckDocument(ids, oracle[i].now);
    WrittenLastWins(bucket, outs, docs, i);
  }

  /** An allowed deck whose key holds a document written for a non-empty
      normalised id list is served from exactly that list, with the
      document's time. */
  lemma DocumentServed(deck: string, nReq: ParsedInt, bucket: Bucket, ids: seq<string>, now: string)
    requires deck in Allowed && ids != [] && forall k :: 0 <= k < |ids| ==> ids[k] != ""
    requires CacheKey(deck) in bucket && bucket[CacheKey(deck)] == Doc(DeckDocument(ids, now))
    ensures var n := ClampCount(nReq);
      DrawPlan(Some(deck), nReq, bucket) == Sample(deck, ids, if n < |ids| then n else |ids|, JStr(now))
  {
    DocumentPool(ids, now);
    StoredDeckServed(deck, nReq, bucket);
  }

  /** An allowed deck whose document is in the bucket, with a non-empty
      pool, is served from that pool, unless converting its `ids` throws. */
  lemma StoredDeckServed(deck: string, nReq: ParsedInt, bucket: Bucket)
    requires deck in Allowed
    requires CacheKey(deck) in bucket && bucket[CacheKey(deck)].Doc?
    requires Pool(bucket[CacheKey(deck)].body) != []
    ensures var obj, n := bucket[CacheKey(deck)].body, ClampCount(nReq);
      var pool := Pool(obj);
      DrawPlan(Some(deck), nReq, bucket)
        == if PoolThrows(obj) then Refuse(UnhandledException, deck)
           else Sample(deck, pool, if n < |pool| then n else |pool|, Coalesce(Field(obj, "updatedAt"), JNull))
  {
    AllowedDeckIsRead(deck, nReq, bucket);
    var plan := ReadPlan(deck, ClampCount(nReq), bucket);
    var obj := bucket[CacheKey(deck)].body;
    if !PoolThrows(obj) {
      assert plan.Sample? && plan.pool == Pool(obj);
      assert plan.updatedAt == Coalesce(Field(obj, "updatedAt"), JNull);
    }
  }

  /** An allowed deck name given as the parameter goes straight to the
      bucket read, with the clamped count. */
  lemma AllowedDeckIsRead(deck: string, nReq: ParsedInt, bucket: Bucket)
    requires deck in Allowed
    ensures DrawPlan(Some(deck), nReq, bucket) == ReadPlan(deck, ClampCount(nReq), bucket)
  {
    AllowedDeckIsItsOwnName(deck);
  }

  /** A name made of lower-case ASCII letters only. */
  predicate LowerWord(s: string) {
    forall k :: 0 <= k < |s| ==> 'a' <= s[k] <= 'z'
  }

  /** A lower-case word survives the trim and the path-safe rewrite. */
  lemma LowerWordKept(s: string)
    requires LowerWord(s)
    ensures Trim(s) == s && SafeDeckName(s) == s
  {
    TrimUnspaced(s);
    SafeDeckNameKeeps(s);
  }

  /** Every allowed deck name is a lower-case word. */
  lemma AllowedAreLowerWords(deck: string)
    ensures deck in Allowed ==> LowerWord(deck)
  {
    if deck in Allowed {
      if deck == "love" {
      } else if deck == "money" {
      } else if deck == "career" {
      } else {
        assert deck == "daily";
      }
    }
  }

  /** An allowed deck name survives the trim and the path-safe rewrite. */
  lemma AllowedDeckIsItsOwnName(deck: string)
    requires deck in Allowed
    ensures Trim(deck) == deck && SafeDeckName(deck) == deck
  {
    AllowedAreLowerWords(deck);
    LowerWordKept(deck);
  }

  /** Reading back a written document gives its ids as the pool and its
      timestamp as `updatedAt`. */
  lemma DocumentPool(ids: seq<string>, now: string)
    requires forall k :: 0 <= k < |ids| ==> ids[k] != ""
    ensures Pool(DeckDocument(ids, now)) == ids
    ensures !PoolThrows(DeckDocument(ids, now))
    ensures Field(DeckDocument(ids, now), "updatedAt") == JStr(now)
  {
    var doc := DeckDocument(ids, now);
    var items := seq(|ids|, k requires 0 <= k < |ids| => JStr(ids[k]));
    var fields := doc.fields;
    assert fields[..2][..1] == fields[..1];
    assert Lookup(fields[..1], "ids") == JArr(items);
    assert Lookup(fields[..2], "ids") == JArr(items);
    assert Field(doc, "ids") == JArr(items);
    var texts := seq(|items|, k requires 0 <= k < |items| => ToJsString(items[k]));
    assert texts == ids;
    NonEmptyOfNonEmpty(ids);
  }

  lemma {:induction false} NonEmptyOfNonEmpty(xs: seq<string>)
    requires forall k :: 0 <= k < |xs| ==> xs[k] != ""
    ensures NonEmpty(xs) == xs
  {
    if xs != [] {
      NonEmptyOfNonEmpty(xs[..|xs| - 1]);
    }
  }
}
