/**
 * The deck cache's batch update, `POST /updateCacheCardId`: batch-level
 * guards, then, entry by entry, the deck allow-list, the normalisation of
 * the id list, the per-deck limits and the write of the deck's document,
 * each entry ending up either in `saved` or in `errors`.
 */
module DeckCache {
  import opened Wrappers
  import opened JsValue
  import opened Text
  import Upload

  const MaxDecksPerRequest: nat := 20
  const MaxIdsPerDeck: nat := 5000
  const MaxPayloadBytes: nat := 512 * 1024

  /** The decks the cache accepts; the draw endpoint uses the same list. */
  const Allowed: set<string> := {"love", "money", "career", "daily"}

  /** Object key of a deck's document in the bucket. */
  function CacheKey(deck: string): (key: string)
    ensures |key| == |deck| + 20
    ensures key[..15] == "cache/card-ids-" && key[|key| - 5..] == ".json"
    ensures key[15..|key| - 5] == deck
  {
    "cache/card-ids-" + deck + ".json"
  }

  /** Distinct decks have distinct keys. */
  lemma CacheKeyInjective(d1: string, d2: string)
    requires CacheKey(d1) == CacheKey(d2)
    ensures d1 == d2
  {
    var p := "cache/card-ids-";
    assert CacheKey(d1)[|p|..|p| + |d1|] == d1;
    assert CacheKey(d2)[|p|..|p| + |d2|] == d2;
  }

  /** What the bucket holds at a key: a document that parses as JSON, or
      content that cannot be read back as JSON. */
  datatype Stored = Doc(body: Value) | Unreadable

  type Bucket = map<string, Stored>

  /** `{ ids, total: ids.length, updatedAt }`, the document a deck is
      overwritten with. */
  function DeckDocument(ids: seq<string>, updatedAt: string): (doc: Value)
    ensures Field(doc, "ids").JArr? && |Field(doc, "ids").items| == |ids|
    ensures forall k :: 0 <= k < |ids| ==> Field(doc, "ids").items[k] == JStr(ids[k])
    ensures Field(doc, "total").JNum? && IsDigits(Field(doc, "total").text)
    ensures DecimalValue(Field(doc, "total").text) == |ids|
    ensures Field(doc, "updatedAt") == JStr(updatedAt)
  {
    var items := seq(|ids|, k requires 0 <= k < |ids| => JStr(ids[k]));
    var fields := [("ids", JArr(items)), ("total", JNum(NatToString(|ids|))), ("updatedAt", JStr(updatedAt))];
    assert fields[..2][..1] == fields[..1];
    assert Lookup(fields[..2], "ids") == Lookup(fields[..1], "ids") == JArr(items);
    assert Lookup(fields, "total") == Lookup(fields[..2], "total");
    JObj(fields)
  }

  // ---------------------------------------------------------------------
  // Normalisation of an entry's id list

  predicate NoDuplicates(xs: seq<string>) {
    forall p, q :: 0 <= p < q < |xs| ==> xs[p] != xs[q]
  }

  /** `String(v || "").trim()`: "" for a falsy item, the trim of its
      `String` for any other. */
  function IdText(v: Value): (r: string)
    ensures !Truthy(v) ==> r == ""
    ensures Truthy(v) ==> r == Trim(ToJsString(v))
  {
    var r := Trim(ToJsString(Or(v, JStr(""))));
    assert !Truthy(v) ==> ToJsString(Or(v, JStr(""))) == "";
    r
  }

  /** `.filter(Boolean)` on strings: the non-empty ones, in order, each as
      often as it occurs. */
  function NonEmpty(xs: seq<string>): (r: seq<string>)
    ensures forall x :: x in r <==> x in xs && x != ""
    ensures multiset(r) == multiset(xs)["" := 0]
  {
    if xs == [] then []
    else
      var init, x := xs[..|xs| - 1], xs[|xs| - 1];
      assert xs == init + [x];
      var rest := NonEmpty(init);
      if x == "" then rest else rest + [x]
  }

  /** Positions of the non-empty strings, in order. */
  function NonEmptyIndices(xs: seq<string>): seq<nat> {
    if xs == [] then []
    else
      var rest := NonEmptyIndices(xs[..|xs| - 1]);
      if xs[|xs| - 1] == "" then rest else rest + [|xs| - 1]
  }

  /** The positions of the non-empty strings, each once, by increasing
      index. */
  lemma NonEmptyIndicesInOrder(xs: seq<string>)
    ensures var at := NonEmptyIndices(xs);
      && (forall t :: 0 <= t < |at| ==> at[t] < |xs| && xs[at[t]] != "")
      && (forall s, t :: 0 <= s < t < |at| ==> at[s] < at[t])
      && (forall i :: 0 <= i < |xs| && xs[i] != "" ==> exists t :: 0 <= t < |at| && at[t] == i)
  {
    NonEmptyIndicesPoint(xs);
    NonEmptyIndicesIncrease(xs);
    NonEmptyIndicesCover(xs);
  }

  lemma {:induction false} NonEmptyIndicesPoint(xs: seq<string>)
    ensures forall t :: 0 <= t < |NonEmptyIndices(xs)| ==>
      NonEmptyIndices(xs)[t] < |xs| && xs[NonEmptyIndices(xs)[t]] != ""
  {
    if xs != [] {
      var n := |xs|;
      var init := xs[..n - 1];
      NonEmptyIndicesPoint(init);
      var at, prev := NonEmptyIndices(xs), NonEmptyIndices(init);
      assert at == (if xs[n - 1] == "" then prev else prev + [n - 1]);
      forall t | 0 <= t < |at| ensures at[t] < |xs| && xs[at[t]] != "" {
        if t < |prev| {
          assert at[t] == prev[t] && xs[at[t]] == init[prev[t]];
        }
      }
    }
  }

  lemma {:induction false} NonEmptyIndicesIncrease(xs: seq<string>)
    ensures forall t :: 0 <= t < |NonEmptyIndices(xs)| ==> NonEmptyIndices(xs)[t] < |xs|
    ensures forall s, t :: 0 <= s < t < |NonEmptyIndices(xs)| ==>
      NonEmptyIndices(xs)[s] < NonEmptyIndices(xs)[t]
  {
    if xs != [] {
      var n := |xs|;
      var init := xs[..n - 1];
      NonEmptyIndicesIncrease(init);
      var at, prev := NonEmptyIndices(xs), NonEmptyIndices(init);
      assert at == (if xs[n - 1] == "" then prev else prev + [n - 1]);
      forall t | 0 <= t < |at| ensures at[t] < |xs| {
        if t < |prev| {
          assert at[t] == prev[t];
        }
      }
      forall s, t | 0 <= s < t < |at| ensures at[s] < at[t] {
        assert at[s] == prev[s];
        if t < |prev| {
          assert at[t] == prev[t];
        }
      }
    }
  }

  lemma {:induction false} NonEmptyIndicesCover(xs: seq<string>)
    ensures forall i :: 0 <= i < |xs| && xs[i] != "" ==> i in NonEmptyIndices(xs)
  {
    if xs != [] {
      var n := |xs|;
      var init := xs[..n - 1];
      NonEmptyIndicesCover(init);
      var at, prev := NonEmptyIndices(xs), NonEmptyIndices(init);
      assert at == (if xs[n - 1] == "" then prev else prev + [n - 1]);
      forall i | 0 <= i < n && xs[i] != "" ensures i in at {
        if i < n - 1 {
          assert init[i] == xs[i];
        }
      }
    }
  }

  /** The filtered list reads off the strings at those positions. */
  lemma {:induction false} NonEmptyAtIndices(xs: seq<string>)
    ensures var r, at := NonEmpty(xs), NonEmptyIndices(xs);
      |at| == |r| && forall t :: 0 <= t < |at| ==> at[t] < |xs| && xs[at[t]] == r[t]
  {
    if xs != [] {
      var n := |xs|;
      var init := xs[..n - 1];
      NonEmptyAtIndices(init);
      var r, at, prev, rest := NonEmpty(xs), NonEmptyIndices(xs), NonEmptyIndices(init), NonEmpty(init);
      assert r == (if xs[n - 1] == "" then rest else rest + [xs[n - 1]]);
      assert at == (if xs[n - 1] == "" then prev else prev + [n - 1]);
      forall t | 0 <= t < |at| ensures at[t] < |xs| && xs[at[t]] == r[t] {
        if t < |prev| {
          assert at[t] == prev[t] && r[t] == rest[t] && xs[at[t]] == init[prev[t]];
        }
      }
    }
  }

  /** The filter keeps exactly the non-empty strings, found at the
      increasing positions `NonEmptyIndices`: order and repetitions are
      kept. */
  lemma NonEmptyInInputOrder(xs: seq<string>)
    ensures var r, at := NonEmpty(xs), NonEmptyIndices(xs);
      && |at| == |r|
      && (forall t :: 0 <= t < |at| ==> at[t] < |xs| && xs[at[t]] == r[t])
      && (forall s, t :: 0 <= s < t < |at| ==> at[s] < at[t])
      && (forall i :: 0 <= i < |xs| && xs[i] != "" ==> exists t :: 0 <= t < |at| && at[t] == i)
  {
    NonEmptyIndicesInOrder(xs);
    NonEmptyAtIndices(xs);
  }

  /** `Array.from(new Set(xs))`: each distinct string once, placed where it
      first occurs. */
  function Dedupe(xs: seq<string>): (r: seq<string>)
    ensures NoDuplicates(r)
    ensures forall x :: x in r <==> x in xs
    ensures |r| <= |xs|
  {
    if xs == [] then []
    else
      var d := Dedupe(xs[..|xs| - 1]);
      var x := xs[|xs| - 1];
      if x in d then d else d + [x]
  }

  /** Position of the first occurrence of `x` in `xs`. */
  function FirstIndex(xs: seq<string>, x: string): (i: nat)
    requires x in xs
    ensures i < |xs| && xs[i] == x && x !in xs[..i]
  {
    if xs[0] == x then 0
    else
      var i := 1 + FirstIndex(xs[1..], x);
      assert xs[..i] == [xs[0]] + xs[1..][..i - 1];
      i
  }

  lemma FirstIndexUnique(xs: seq<string>, x: string, i: nat)
    requires i < |xs| && xs[i] == x && x !in xs[..i]
    ensures FirstIndex(xs, x) == i
  {
  }

  /** Appending an element does not move first occurrences already there. */
  lemma FirstIndexExtend(xs: seq<string>, y: string, z: string)
    requires y in xs
    ensures FirstIndex(xs + [z], y) == FirstIndex(xs, y)
  {
    var i := FirstIndex(xs, y);
    assert (xs + [z])[..i] == xs[..i];
    FirstIndexUnique(xs + [z], y, i);
  }

  /** The de-duplicated list keeps the order of first occurrence. */
  lemma {:induction false} DedupeKeepsFirstOccurrenceOrder(xs: seq<string>, p: nat, q: nat)
    requires p < q < |Dedupe(xs)|
    ensures FirstIndex(xs, Dedupe(xs)[p]) < FirstIndex(xs, Dedupe(xs)[q])
  {
    var init, x := xs[..|xs| - 1], xs[|xs| - 1];
    assert xs == init + [x];
    var d := Dedupe(init);
    FirstIndexExtend(init, d[p], x);
    if q < |d| {
      DedupeKeepsFirstOccurrenceOrder(init, p, q);
      FirstIndexExtend(init, d[q], x);
    } else {
      assert x !in init;
      FirstIndexUnique(xs, x, |xs| - 1);
    }
  }

  /** Dropping the empty strings keeps the order of first occurrences. */
  lemma {:induction false} NonEmptyKeepsOrder(xs: seq<string>, x: string, y: string)
    requires x in NonEmpty(xs) && y in NonEmpty(xs)
    requires FirstIndex(NonEmpty(xs), x) < FirstIndex(NonEmpty(xs), y)
    ensures FirstIndex(xs, x) < FirstIndex(xs, y)
  {
    var init, z := xs[..|xs| - 1], xs[|xs| - 1];
    assert xs == init + [z];
    var rest := NonEmpty(init);
    if z == "" {
      NonEmptyKeepsOrder(init, x, y);
      FirstIndexExtend(init, x, z);
      FirstIndexExtend(init, y, z);
    } else if x in rest && y in rest {
      FirstIndexExtend(rest, x, z);
      FirstIndexExtend(rest, y, z);
      NonEmptyKeepsOrder(init, x, y);
      FirstIndexExtend(init, x, z);
      FirstIndexExtend(init, y, z);
    } else if x in rest {
      assert y == z && y !in init;
      FirstIndexUnique(xs, y, |xs| - 1);
      FirstIndexExtend(init, x, z);
    }
  }

  /** Each item's text: `String(v || "").trim()`. */
  function IdTexts(items: seq<Value>): (texts: seq<string>)
    ensures |texts| == |items|
  {
    seq(|items|, k requires 0 <= k < |items| => IdText(items[k]))
  }

  /** The id list of an entry: the items' texts, the empty ones dropped,
      duplicates removed keeping first occurrences; `[]` when `ids` is not
      an array. */
  function NormalizeIds(ids: Value): (r: seq<string>)
    ensures !ids.JArr? ==> r == []
    ensures NoDuplicates(r)
    ensures forall k :: 0 <= k < |r| ==> r[k] != ""
  {
    if ids.JArr? then
      var r := Dedupe(NonEmpty(IdTexts(ids.items)));
      assert forall k :: 0 <= k < |r| ==> r[k] in r;
      r
    else []
  }

  /** The normalised list holds exactly the non-empty trimmed texts of the
      truthy items. */
  lemma NormalizeIdsMembers(ids: Value)
    requires ids.JArr?
    ensures forall x :: x in NormalizeIds(ids) <==>
      x != "" && exists k :: 0 <= k < |ids.items| && Truthy(ids.items[k]) && x == Trim(ToJsString(ids.items[k]))
  {
    var texts := IdTexts(ids.items);
    forall x ensures x in NormalizeIds(ids) <==>
      x != "" && exists k :: 0 <= k < |ids.items| && Truthy(ids.items[k]) && x == Trim(ToJsString(ids.items[k]))
    {
      if x in NormalizeIds(ids) {
        var k :| 0 <= k < |texts| && texts[k] == x;
        assert Truthy(ids.items[k]) && x == Trim(ToJsString(ids.items[k]));
      } else if x != "" {
        forall k | 0 <= k < |ids.items| && Truthy(ids.items[k]) ensures x != Trim(ToJsString(ids.items[k])) {
          assert texts[k] in texts;
        }
      }
    }
  }

  /** The normalised list keeps its ids in the order of their first
      occurrence among the items' texts. */
  lemma NormalizeIdsOrder(ids: Value)
    requires ids.JArr?
    ensures forall p, q :: 0 <= p < q < |NormalizeIds(ids)| ==>
      && NormalizeIds(ids)[p] in IdTexts(ids.items) && NormalizeIds(ids)[q] in IdTexts(ids.items)
      && FirstIndex(IdTexts(ids.items), NormalizeIds(ids)[p]) < FirstIndex(IdTexts(ids.items), NormalizeIds(ids)[q])
  {
    var texts := IdTexts(ids.items);
    var r := NormalizeIds(ids);
    assert r == Dedupe(NonEmpty(texts));
    forall p, q | 0 <= p < q < |r|
      ensures r[p] in texts && r[q] in texts && FirstIndex(texts, r[p]) < FirstIndex(texts, r[q])
    {
      assert r[p] in r && r[q] in r;
      DedupeKeepsFirstOccurrenceOrder(NonEmpty(texts), p, q);
      NonEmptyKeepsOrder(texts, r[p], r[q]);
    }
  }

  // ---------------------------------------------------------------------
  // One entry of the batch

  /** Every way an entry can fail, in the order the handler checks them. */
  datatype Reason = InvalidDeck | EmptyIdsArray | TooManyIds | DeckPayloadTooLarge | R2PutError

  function Rank(r: Reason): nat {
    match r
    case InvalidDeck => 0
    case EmptyIdsArray => 1
    case TooManyIds => 2
    case DeckPayloadTooLarge => 3
    case R2PutError => 4
  }

  datatype SavedEntry = SavedEntry(deck: string, count: nat, key: string)
  datatype EntryError = EntryError(deck: string, reason: Reason, index: nat)
  datatype Outcome = Saved(entry: SavedEntry) | Failed(error: EntryError)

  /** What the environment answers for one entry: the length of
      `JSON.stringify` of its document, the `updatedAt` text the clock gives,
      and whether the bucket's `put` succeeds. */
  datatype EntryOracle = EntryOracle(payloadLength: nat, now: string, putSucceeds: bool)

  /** `String((raw || {}).deck || "").trim()`: the item text of the
      entry's `deck` member, "" for a falsy entry. */
  function EntryDeck(raw: Value): (deck: string)
    ensures deck == IdText(Field(raw, "deck"))
    ensures !Truthy(raw) ==> deck == ""
    ensures deck != [] ==> !IsJsSpace(deck[0]) && !IsJsSpace(deck[|deck| - 1])
  {
    var member := Field(Or(raw, JObj([])), "deck");
    assert member == Field(raw, "deck");
    IdText(member)
  }

  /** The loop body throws on entry `raw`: `String(e.deck || "")` throws,
      or the deck is allowed and `e.ids` is an array with an item on which
      `String(v || "")` throws. The worker's outer handler then answers 500
      unhandled_exception, after the puts of the earlier entries. */
  predicate EntryThrows(raw: Value) {
    var e := Or(raw, JObj([]));
    var ids := Field(e, "ids");
    || StringThrows(Or(Field(e, "deck"), JStr("")))
    || (&& EntryDeck(raw) in Allowed && ids.JArr?
        && exists k :: 0 <= k < |ids.items| && StringThrows(Or(ids.items[k], JStr(""))))
  }

  /** The `|| ""` and `|| {}` make no difference to the throw: the body
      throws exactly when the entry's `deck` would, or when the deck is
      allowed and its `ids` is an array whose `String` would. */
  lemma EntryThrowsMeaning(raw: Value)
    ensures EntryThrows(raw) <==>
      || StringThrows(Field(raw, "deck"))
      || (EntryDeck(raw) in Allowed && Field(raw, "ids").JArr? && StringThrows(Field(raw, "ids")))
  {
    var e := Or(raw, JObj([]));
    assert Field(e, "deck") == Field(raw, "deck") && Field(e, "ids") == Field(raw, "ids");
  }

  /** The position of the first entry the loop body throws on, or the
      number of entries when it throws on none. */
  function FirstThrow(entries: seq<Value>): (t: nat)
    ensures t <= |entries|
    ensures forall k :: 0 <= k < t ==> !EntryThrows(entries[k])
    ensures t < |entries| ==> EntryThrows(entries[t])
  {
    if entries == [] then 0
    else if EntryThrows(entries[0]) then 0
    else 1 + FirstThrow(entries[1..])
  }

  /** The loop steps past an entry at or before the first throw: past it
      when the body does not throw on it, and stops at the first throw when
      it does. */
  lemma FirstThrowStep(entries: seq<Value>, i: nat)
    requires i < |entries| && i <= FirstThrow(entries)
    ensures EntryThrows(entries[i]) ==> FirstThrow(entries) == i
    ensures !EntryThrows(entries[i]) ==> i + 1 <= FirstThrow(entries)
  {
  }

  /** The normalised id list of `(raw || {}).ids`. */
  function EntryIds(raw: Value): seq<string> {
    NormalizeIds(Field(Or(raw, JObj([])), "ids"))
  }

  /** Whether the check reporting `reason` fails for an entry with deck
      `deck` and normalised ids `ids`. */
  predicate Fails(reason: Reason, deck: string, ids: seq<string>, o: EntryOracle) {
    match reason
    case InvalidDeck => deck !in Allowed
    case EmptyIdsArray => |ids| == 0
    case TooManyIds => |ids| > MaxIdsPerDeck
    case DeckPayloadTooLarge => o.payloadLength > MaxPayloadBytes
    case R2PutError => !o.putSucceeds
  }

  /** The outcome of entry `index` with deck `deck` and normalised ids
      `ids`, as the loop body decides it. */
  function Decide(index: nat, deck: string, ids: seq<string>, o: EntryOracle): (out: Outcome)
    ensures out.Saved? <==>
      deck in Allowed && 1 <= |ids| <= MaxIdsPerDeck && o.payloadLength <= MaxPayloadBytes && o.putSucceeds
    ensures out.Failed? ==> out.error.deck == deck && out.error.index == index
    ensures out.Saved? ==> out.entry == SavedEntry(deck, |ids|, CacheKey(deck))
  {
    if deck !in Allowed then Failed(EntryError(deck, InvalidDeck, index))
    else if |ids| == 0 then Failed(EntryError(deck, EmptyIdsArray, index))
    else if |ids| > MaxIdsPerDeck then Failed(EntryError(deck, TooManyIds, index))
    else if o.payloadLength > MaxPayloadBytes then Failed(EntryError(deck, DeckPayloadTooLarge, index))
    else if !o.putSucceeds then Failed(EntryError(deck, R2PutError, index))
    else Saved(SavedEntry(deck, |ids|, CacheKey(deck)))
  }

  /** An entry fails with the first check, in handler order, that fails for
      it, and is saved exactly when none fails; a saved entry records its deck,
      the length of its id list and the deck's cache key. */
  lemma DecideReportsFirstFailure(index: nat, deck: string, ids: seq<string>, o: EntryOracle)
    ensures var out := Decide(index, deck, ids, o);
      && (out.Failed? ==>
            && out.error.deck == deck && out.error.index == index
            && Fails(out.error.reason, deck, ids, o)
            && forall r :: Rank(r) < Rank(out.error.reason) ==> !Fails(r, deck, ids, o))
      && (out.Saved? <==> forall r :: !Fails(r, deck, ids, o))
      && (out.Saved? ==>
            && out.entry == SavedEntry(deck, |ids|, CacheKey(deck))
            && deck in Allowed && 1 <= out.entry.count <= MaxIdsPerDeck)
  {
    var out := Decide(index, deck, ids, o);
    if out.Saved? {
      forall r ensures !Fails(r, deck, ids, o) {
        match r
        case InvalidDeck =>
        case EmptyIdsArray =>
        case TooManyIds =>
        case DeckPayloadTooLarge =>
        case R2PutError =>
      }
    } else {
      forall r | Rank(r) < Rank(out.error.reason) ensures !Fails(r, deck, ids, o) {
        match r
        case InvalidDeck =>
        case EmptyIdsArray =>
        case TooManyIds =>
        case DeckPayloadTooLarge =>
        case R2PutError =>
      }
      assert Fails(out.error.reason, deck, ids, o);
    }
  }

  // ---------------------------------------------------------------------
  // The batch

  datatype BatchError =
    | Unauthorized
    | ContentTypeMustBeJson
    | EmptyPayload
    | PayloadTooLarge
    | TooManyDecks

  datatype BatchResponse =
    | Rejected(error: BatchError, status: int)
    | Completed(ok: bool, status: int, saved: seq<SavedEntry>, errors: seq<EntryError>)
    | Unhandled(status: int)

  /** `Array.isArray(body) ? body : [body]` */
  function Entries(body: Value): (entries: seq<Value>)
    ensures body.JArr? ==> entries == body.items
    ensures !body.JArr? ==> |entries| == 1 && entries[0] == body
  {
    if body.JArr? then body.items else [body]
  }

  /** The request guards the batch shares with the upload, before the body
      is read: the bearer token against `uploadToken` (the configured
      secret), then a JSON content type. */
  function BatchGate(authorization: Option<string>, contentType: Option<string>, uploadToken: Option<string>)
    : (r: Option<BatchError>)
    ensures r == Some(Unauthorized) <==> !Upload.Authorized(authorization, uploadToken)
    ensures r == Some(ContentTypeMustBeJson) <==>
      Upload.Authorized(authorization, uploadToken) && !Upload.ContentTypeAccepted(contentType)
    ensures r.None? <==>
      Upload.Authorized(authorization, uploadToken) && Upload.ContentTypeAccepted(contentType)
  {
    if !Upload.Authorized(authorization, uploadToken) then Some(Unauthorized)
    else if !Upload.ContentTypeAccepted(contentType) then Some(ContentTypeMustBeJson)
    else None
  }

  /** The batch-level guard that rejects the request, if any:
      `bodyTextLength` is the length of `JSON.stringify(body)`, of which
      three quarters is the size estimate. */
  function BatchRejection(entries: seq<Value>, bodyTextLength: nat): (r: Option<BatchError>)
    ensures var empty := |entries| == 0 || (|entries| == 1 && !Truthy(entries[0]));
      && (r == Some(EmptyPayload) <==> empty)
      && (r == Some(PayloadTooLarge) <==> !empty && bodyTextLength > 699_051)
      && (r == Some(TooManyDecks) <==> !empty && bodyTextLength <= 699_051 && |entries| > MaxDecksPerRequest)
      && (r.None? <==> !empty && bodyTextLength <= 699_051 && |entries| <= MaxDecksPerRequest)
  {
    if |entries| == 0 || (|entries| == 1 && !Truthy(entries[0])) then Some(EmptyPayload)
    else if bodyTextLength * 3 / 4 > MaxPayloadBytes then Some(PayloadTooLarge)
    else if |entries| > MaxDecksPerRequest then Some(TooManyDecks)
    else None
  }

  /** 401 for a bad token, 413 for an oversized body; every other
      rejection is the client's 400. */
  function RejectionStatus(e: BatchError): (status: int)
    ensures status == 401 <==> e == Unauthorized
    ensures status == 413 <==> e == PayloadTooLarge
    ensures status == 400 <==> e != Unauthorized && e != PayloadTooLarge
  {
    match e
    case Unauthorized => 401
    case ContentTypeMustBeJson => 400
    case EmptyPayload => 400
    case PayloadTooLarge => 413
    case TooManyDecks => 400
  }

  /** The outcome of every entry. */
  function Outcomes(entries: seq<Value>, oracle: seq<EntryOracle>): (outs: seq<Outcome>)
    requires |oracle| >= |entries|
    ensures |outs| == |entries|
    ensures Indexed(outs)
  {
    seq(|entries|, i requires 0 <= i < |entries| => Decide(i, EntryDeck(entries[i]), EntryIds(entries[i]), oracle[i]))
  }

  /** The document each entry would be written with. */
  function Documents(entries: seq<Value>, oracle: seq<EntryOracle>): (docs: seq<Value>)
    requires |oracle| >= |entries|
    ensures |docs| == |entries|
  {
    seq(|entries|, i requires 0 <= i < |entries| => DeckDocument(EntryIds(entries[i]), oracle[i].now))
  }

  /** The `saved` records of the outcomes, in order. */
  function SavedOf(outs: seq<Outcome>): seq<SavedEntry> {
    if outs == [] then []
    else
      var rest := SavedOf(outs[..|outs| - 1]);
      match outs[|outs| - 1]
      case Saved(s) => rest + [s]
      case Failed(_) => rest
  }

  /** The `errors` records of the outcomes, in order. */
  function ErrorsOf(outs: seq<Outcome>): seq<EntryError> {
    if outs == [] then []
    else
      var rest := ErrorsOf(outs[..|outs| - 1]);
      match outs[|outs| - 1]
      case Saved(_) => rest
      case Failed(e) => rest + [e]
  }

  /** Positions of the saved outcomes, in order. */
  function SavedIndices(outs: seq<Outcome>): seq<nat> {
    if outs == [] then []
    else
      var rest := SavedIndices(outs[..|outs| - 1]);
      if outs[|outs| - 1].Saved? then rest + [|outs| - 1] else rest
  }

  /** Every outcome that is a failure records its own position. */
  ghost predicate Indexed(outs: seq<Outcome>) {
    forall i :: 0 <= i < |outs| && outs[i].Failed? ==> outs[i].error.index == i
  }

  /** Each entry lands in exactly one of the two lists. */
  lemma {:induction false} SavedPlusErrors(outs: seq<Outcome>)
    ensures |SavedOf(outs)| + |ErrorsOf(outs)| == |outs|
    ensures |SavedIndices(outs)| == |SavedOf(outs)|
  {
    if outs != [] {
      SavedPlusErrors(outs[..|outs| - 1]);
    }
  }

  /** `errors` lists exactly the failed entries, by increasing index. */
  lemma {:induction false} ErrorsInInputOrder(outs: seq<Outcome>)
    requires Indexed(outs)
    ensures var errors := ErrorsOf(outs);
      && (forall t :: 0 <= t < |errors| ==> errors[t].index < |outs| && outs[errors[t].index] == Failed(errors[t]))
      && (forall s, t :: 0 <= s < t < |errors| ==> errors[s].index < errors[t].index)
      && (forall i :: 0 <= i < |outs| && outs[i].Failed? ==> exists t :: 0 <= t < |errors| && errors[t].index == i)
  {
    if outs != [] {
      var n := |outs|;
      var init := outs[..n - 1];
      assert Indexed(init);
      ErrorsInInputOrder(init);
      var errors, prev := ErrorsOf(outs), ErrorsOf(init);
      assert forall t :: 0 <= t < |prev| ==> errors[t] == prev[t];
      forall i | 0 <= i < n && outs[i].Failed? ensures exists t :: 0 <= t < |errors| && errors[t].index == i {
        if i < n - 1 {
          assert init[i] == outs[i];
          var t :| 0 <= t < |prev| && prev[t].index == i;
          assert errors[t].index == i;
        } else {
          assert errors[|errors| - 1].index == i;
        }
      }
    }
  }

  /** `saved` lists exactly the saved entries, found at the increasing
      positions `SavedIndices`. */
  lemma {:induction false} SavedInInputOrder(outs: seq<Outcome>)
    ensures var saved, at := SavedOf(outs), SavedIndices(outs);
      && |at| == |saved|
      && (forall t :: 0 <= t < |at| ==> at[t] < |outs| && outs[at[t]] == Saved(saved[t]))
      && (forall s, t :: 0 <= s < t < |at| ==> at[s] < at[t])
      && (forall i :: 0 <= i < |outs| && outs[i].Saved? ==> exists t :: 0 <= t < |at| && at[t] == i)
  {
    if outs != [] {
      var n := |outs|;
      var init := outs[..n - 1];
      SavedInInputOrder(init);
      var at, prev := SavedIndices(outs), SavedIndices(init);
      assert forall t :: 0 <= t < |prev| ==> at[t] == prev[t];
      forall i | 0 <= i < n && outs[i].Saved? ensures exists t :: 0 <= t < |at| && at[t] == i {
        if i < n - 1 {
          assert init[i] == outs[i];
          var t :| 0 <= t < |prev| && prev[t] == i;
          assert at[t] == i;
        } else {
          assert at[|at| - 1] == i;
        }
      }
    }
  }

  /** The bucket after the writes of the outcomes `outs`, `docs[i]` being
      the document entry `i` is written with: each saved entry overwrites
      its deck's whole document. */
  function Written(bucket: Bucket, outs: seq<Outcome>, docs: seq<Value>): (b: Bucket)
    requires |outs| <= |docs|
    ensures forall key :: key in b <==>
      key in bucket || exists i :: 0 <= i < |outs| && outs[i].Saved? && outs[i].entry.key == key
  {
    if outs == [] then bucket
    else
      var b := Written(bucket, outs[..|outs| - 1], docs);
      match outs[|outs| - 1]
      case Saved(s) => b[s.key := Doc(docs[|outs| - 1])]
      case Failed(_) => b
  }

  /** A key no saved entry writes keeps its old content, or its absence. */
  lemma {:induction false} WrittenLeavesOtherKeys(bucket: Bucket, outs: seq<Outcome>, docs: seq<Value>, key: string)
    requires |outs| <= |docs|
    requires forall i :: 0 <= i < |outs| && outs[i].Saved? ==> outs[i].entry.key != key
    ensures key in Written(bucket, outs, docs) <==> key in bucket
    ensures key in bucket ==> Written(bucket, outs, docs)[key] == bucket[key]
  {
    if outs != [] {
      WrittenLeavesOtherKeys(bucket, outs[..|outs| - 1], docs, key);
    }
  }

  /** Last writer wins: a key holds the document of the last saved entry
      that writes it. */
  lemma {:induction false} WrittenLastWins(bucket: Bucket, outs: seq<Outcome>, docs: seq<Value>, i: nat)
    requires i < |outs| <= |docs|
    requires outs[i].Saved?
    requires forall j :: i < j < |outs| && outs[j].Saved? ==> outs[j].entry.key != outs[i].entry.key
    ensures outs[i].entry.key in Written(bucket, outs, docs)
    ensures Written(bucket, outs, docs)[outs[i].entry.key] == Doc(docs[i])
  {
    if i < |outs| - 1 {
      WrittenLastWins(bucket, outs[..|outs| - 1], docs, i);
    }
  }

  /** What one more entry adds to the two lists and to the bucket. */
  lemma OneMoreEntry(bucket: Bucket, outs: seq<Outcome>, docs: seq<Value>, i: nat)
    requires i < |outs| <= |docs|
    ensures var last, prefix := outs[i], outs[..i];
      && SavedOf(outs[..i + 1]) == (if last.Saved? then SavedOf(prefix) + [last.entry] else SavedOf(prefix))
      && ErrorsOf(outs[..i + 1]) == (if last.Failed? then ErrorsOf(prefix) + [last.error] else ErrorsOf(prefix))
      && Written(bucket, outs[..i + 1], docs) ==
           (if last.Saved? then Written(bucket, prefix, docs)[last.entry.key := Doc(docs[i])]
            else Written(bucket, prefix, docs))
  {
    assert outs[..i + 1][..i] == outs[..i];
  }

  /** The loop body for entry `index`: the deck name and the id list are
      checked in handler order, and only an entry that passes every check is
      put, overwriting its deck's document, which leaves every other key as
      it was. `None` is a throw, which leaves the bucket alone. */
  method ProcessEntry(index: nat, raw: Value, o: EntryOracle, bucket: Bucket)
    returns (out: Option<Outcome>, bucket': Bucket)
    ensures out.None? <==> EntryThrows(raw)
    ensures out.Some? ==> out.value == Decide(index, EntryDeck(raw), EntryIds(raw), o)
    ensures out.Some? && out.value.Saved? ==>
      bucket' == bucket[out.value.entry.key := Doc(DeckDocument(EntryIds(raw), o.now))]
    ensures out.None? || out.value.Failed? ==> bucket' == bucket
  {
    bucket' := bucket;
    var e := Or(raw, JObj([]));
    var deckValue := Or(Field(e, "deck"), JStr(""));
    if StringThrows(deckValue) {
      return None, bucket';
    }
    var deck := Trim(ToJsString(deckValue));
    assert deck == EntryDeck(raw);
    if deck !in Allowed {
      assert !EntryThrows(raw);
      return Some(Failed(EntryError(deck, InvalidDeck, index))), bucket';
    }
    var idsValue := Field(e, "ids");
    if idsValue.JArr? && exists k :: 0 <= k < |idsValue.items| && StringThrows(Or(idsValue.items[k], JStr(""))) {
      return None, bucket';
    }
    assert !EntryThrows(raw);
    assert idsValue == Field(Or(raw, JObj([])), "ids");
    var ids := NormalizeIds(idsValue);
    if |ids| == 0 {
      return Some(Failed(EntryError(deck, EmptyIdsArray, index))), bucket';
    }
    if |ids| > MaxIdsPerDeck {
      return Some(Failed(EntryError(deck, TooManyIds, index))), bucket';
    }
    if o.payloadLength > MaxPayloadBytes {
      return Some(Failed(EntryError(deck, DeckPayloadTooLarge, index))), bucket';
    }
    var key := CacheKey(deck);
    if !o.putSucceeds {
      return Some(Failed(EntryError(deck, R2PutError, index))), bucket';
    }
    bucket' := bucket'[key := Doc(DeckDocument(ids, o.now))];
    out := Some(Saved(SavedEntry(deck, |ids|, key)));
  }

  /** The loop over the entries of a batch that passed the guards: the
      saved entries and the errors are collected in input order, and every
      saved entry is written to the bucket in turn, until the loop body
      throws (`threw`), which ends the loop with the entries before it
      processed and written. */
  method ProcessEntries(entries: seq<Value>, oracle: seq<EntryOracle>, bucket: Bucket)
    returns (saved: seq<SavedEntry>, errors: seq<EntryError>, bucket': Bucket, threw: bool)
    requires |oracle| >= |entries|
    ensures threw <==> FirstThrow(entries) < |entries|
    ensures var outs := Outcomes(entries, oracle)[..FirstThrow(entries)];
      && saved == SavedOf(outs)
      && errors == ErrorsOf(outs)
      && bucket' == Written(bucket, outs, Documents(entries, oracle))
    ensures !threw ==>
      var outs := Outcomes(entries, oracle);
      && saved == SavedOf(outs)
      && errors == ErrorsOf(outs)
      && bucket' == Written(bucket, outs, Documents(entries, oracle))
  {
    saved, errors := [], [];
    bucket' := bucket;
    ghost var outs := Outcomes(entries, oracle);
    ghost var docs := Documents(entries, oracle);
    for index := 0 to |entries|
      invariant index <= FirstThrow(entries)
      invariant saved == SavedOf(outs[..index])
      invariant errors == ErrorsOf(outs[..index])
      invariant bucket' == Written(bucket, outs[..index], docs)
    {
      OneMoreEntry(bucket, outs, docs, index);
      var out;
      out, bucket' := ProcessEntry(index, entries[index], oracle[index], bucket');
      FirstThrowStep(entries, index);
      if out.None? {
        return saved, errors, bucket', true;
      }
      assert out.value == outs[index];
      match out.value
      case Saved(entry) => saved := saved + [entry];
      case Failed(error) => errors := errors + [error];
    }
    assert outs[..|entries|] == outs;
    threw := false;
  }

  /** `POST /updateCacheCardId`: the token and content-type guards, then,
      with the body parsed, the batch guards, all return before anything is
      written; otherwise every entry is processed in order, saved entries
      overwrite their deck's document, and the response is ok, with status
      200, exactly when no entry failed, and has status 207 otherwise. */
  method UpdateCacheCardIds(authorization: Option<string>, contentType: Option<string>,
                            uploadToken: Option<string>, body: Value, bodyTextLength: nat,
                            oracle: seq<EntryOracle>, bucket: Bucket)
    returns (resp: BatchResponse, bucket': Bucket)
    requires |oracle| >= |Entries(body)|
    ensures !Upload.Authorized(authorization, uploadToken) ==>
      resp == Rejected(Unauthorized, 401) && bucket' == bucket
    ensures var gate := BatchGate(authorization, contentType, uploadToken);
      gate.Some? ==> resp == Rejected(gate.value, RejectionStatus(gate.value)) && bucket' == bucket
    ensures var rejection := BatchRejection(Entries(body), bodyTextLength);
      BatchGate(authorization, contentType, uploadToken).None? && rejection.Some? ==>
      resp == Rejected(rejection.value, RejectionStatus(rejection.value)) && bucket' == bucket
    ensures var t := FirstThrow(Entries(body));
      (&& BatchGate(authorization, contentType, uploadToken).None?
       && BatchRejection(Entries(body), bodyTextLength).None? && t < |Entries(body)|) ==>
      && resp == Unhandled(500)
      && bucket' == Written(bucket, Outcomes(Entries(body), oracle)[..t], Documents(Entries(body), oracle))
    ensures (&& BatchGate(authorization, contentType, uploadToken).None?
             && BatchRejection(Entries(body), bodyTextLength).None?
             && FirstThrow(Entries(body)) == |Entries(body)|) ==>
      var outs := Outcomes(Entries(body), oracle);
      && resp.Completed?
      && resp.saved == SavedOf(outs)
      && resp.errors == ErrorsOf(outs)
      && resp.ok == (resp.errors == [])
      && resp.status == (if resp.errors == [] then 200 else 207)
      && bucket' == Written(bucket, outs, Documents(Entries(body), oracle))
  {
    if !Upload.Authorized(authorization, uploadToken) {
      return Rejected(Unauthorized, 401), bucket;
    }
    if !Upload.ContentTypeAccepted(contentType) {
      return Rejected(ContentTypeMustBeJson, 400), bucket;
    }
    var entries := if body.JArr? then body.items else [body];
    assert entries == Entries(body);
    if |entries| == 0 || (|entries| == 1 && !Truthy(entries[0])) {
      return Rejected(EmptyPayload, 400), bucket;
    }
    var estimatedBytes := bodyTextLength * 3 / 4;
    if estimatedBytes > MaxPayloadBytes {
      return Rejected(PayloadTooLarge, 413), bucket;
    }
    if |entries| > MaxDecksPerRequest {
      return Rejected(TooManyDecks, 400), bucket;
    }

    assert BatchGate(authorization, contentType, uploadToken).None?;
    assert BatchRejection(entries, bodyTextLength).None?;
    var saved, errors, threw;
    saved, errors, bucket', threw := ProcessEntries(entries, oracle, bucket);
    if threw {
      return Unhandled(500), bucket';
    }
    resp := Completed(|errors| == 0, if |errors| > 0 then 207 else 200, saved, errors);
  }
}
