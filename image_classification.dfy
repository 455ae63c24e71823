/** backend/service/image/image_classification_routes.py: classifying the
    products in an uploaded picture. The picture is validated; the words
    that OCR finds in it select stored labels; then a vision model is asked
    for a JSON list of products, up to three times. Stored labels and model
    items are merged into one insertion-ordered dictionary keyed by the
    trimmed, lower-cased product name, in which the first insertion wins.

    Image decoding, OCR, the vision model and the JSON decoder are oracles:
    their results are inputs. */
module ImageClassification {
  import opened Wrappers
  import opened Text
  import opened Dicts

  type Byte = b: int | 0 <= b < 256

  /** The upload: its declared content type (possibly absent) and its bytes. */
  datatype ImageFile = ImageFile(contentType: Option<string>, bytes: seq<Byte>)

  /** A row of the `image_labels` table. */
  datatype ImageLabel = ImageLabel(ocrText: string, productName: string, category: string)

  /** `ImageLabelOut`: one classified product. */
  datatype Label = Label(productName: string, category: string)

  /** A field of a decoded list item: absent, a string, or some other JSON value. */
  datatype Field = Absent | Str(s: string) | NotStr

  /** An element of the decoded list: a JSON object, or anything else. */
  datatype Item = NotObject | Object(productName: Field, category: Field)

  /** What `json.loads` makes of the bracketed span. */
  datatype Parsed = Invalid | NotList | List(items: seq<Item>)

  /** What one call of the vision model yields: nothing usable (the call
      raised, or the answer had no choices), or the text of the first choice. */
  datatype Reply = NoReply | Content(text: string)

  const MaxRetries: nat := 3

  const ValidContentTypes: set<string> := {"image/jpeg", "image/jpg", "image/png"}

  /** Brands and restaurants whose items are always categorised "other",
      written as the two lines of the source's set literal. */
  const KnownBrands: set<string> := {
    "mcdonald's", "starbucks", "burger king", "kfc", "subway", "domino's", "pizza hut", "wendy's",
    "taco bell", "dunkin", "chipotle", "panera bread", "papa john's", "arbys", "jack in the box",
    "chick-fil-a", "five guys", "hardee's", "carls jr", "little caesars", "sonic", "a&w",
    "tim hortons", "jollibee", "in-n-out", "shake shack", "costa coffee", "pret a manger"
  } + {
    "krispy kreme", "peet's coffee", "cinnabon", "dairy queen", "el pollo loco", "wingstop",
    "red robin", "outback steakhouse", "buffalo wild wings", "panda express", "sbarro",
    "long john silver's", "baskin robbins", "dave & buster's", "ihop", "applebee's", "olive garden",
    "tgi friday's", "cheesecake factory", "benihana", "hooters", "ruby tuesday", "zaxby's",
    "raising cane's", "culver's", "bojangles", "jamba", "smoothie king", "firehouse subs",
    "jersey mike's", "potbelly", "blaze pizza", "mod pizza", "sweetgreen", "tropical smoothie cafe",
    "jimmy john's", "quiznos", "schlotzsky's", "togo's", "blimpie", "auntie anne's",
    "church's chicken", "denny's"
  }

  // -----------------------------------------------------------------------
  // Upload validation

  /** The whitespace of `bytes.strip()`: ASCII only. */
  predicate IsAsciiSpace(b: Byte) {
    b == 32 || b == 9 || b == 10 || b == 11 || b == 12 || b == 13
  }

  predicate AllAsciiSpace(bs: seq<Byte>) {
    forall k :: 0 <= k < |bs| ==> IsAsciiSpace(bs[k])
  }

  /** Number of leading ASCII whitespace bytes. */
  function LeadingAsciiSpaces(bs: seq<Byte>): (n: nat)
    ensures n <= |bs|
    ensures AllAsciiSpace(bs[..n])
    ensures n < |bs| ==> !IsAsciiSpace(bs[n])
  {
    if bs == [] || !IsAsciiSpace(bs[0]) then 0 else 1 + LeadingAsciiSpaces(bs[1..])
  }

  /** Index from which only ASCII whitespace follows. */
  function TrailingAsciiStart(bs: seq<Byte>): (n: nat)
    ensures n <= |bs|
    ensures AllAsciiSpace(bs[n..])
    ensures n > 0 ==> !IsAsciiSpace(bs[n - 1])
  {
    if bs == [] || !IsAsciiSpace(bs[|bs| - 1]) then |bs| else TrailingAsciiStart(bs[..|bs| - 1])
  }

  /** `bytes.strip()`: the slice of `bs` left once the leading and the
      trailing ASCII whitespace are cut off. */
  function StripBytes(bs: seq<Byte>): (r: seq<Byte>)
    ensures exists i :: 0 <= i <= |bs| - |r| && r == bs[i..i + |r|] && AllAsciiSpace(bs[..i]) && AllAsciiSpace(bs[i + |r|..])
    ensures r == [] <==> AllAsciiSpace(bs)
    ensures r != [] ==> !IsAsciiSpace(r[0]) && !IsAsciiSpace(r[|r| - 1])
  {
    var i := LeadingAsciiSpaces(bs);
    var j := TrailingAsciiStart(bs);
    if j <= i then
      assert AllAsciiSpace(bs) by {
        forall k | 0 <= k < |bs| ensures IsAsciiSpace(bs[k]) {
          if k >= j { assert bs[k] == bs[j..][k - j]; } else { assert bs[k] == bs[..i][k]; }
        }
      }
      assert bs[..0] == [] && bs[0..] == bs;
      []
    else
      var r := bs[i..j];
      assert !AllAsciiSpace(bs) by { assert !IsAsciiSpace(bs[j - 1]); }
      assert r[0] == bs[i] && r[|r| - 1] == bs[j - 1];
      assert r == bs[i..i + |r|] && bs[i + |r|..] == bs[j..];
      r
  }

  /** `b'string'`. */
  const StringBytes: seq<Byte> := [115, 116, 114, 105, 110, 103]

  /** The content type as compared: lower-cased and trimmed, "" when absent. */
  function NormalisedType(contentType: Option<string>): string {
    Strip(Lower(if contentType.Some? then contentType.value else ""))
  }

  /** The upload checks, each a 400, in the order the route makes them. */
  function UploadError(file: Option<ImageFile>, decodable: bool): (r: Option<HttpError>)
  {
    if file.None? then
      Some(HttpError(400, "No file uploaded. Please upload a valid .jpg or .png image."))
    else if NormalisedType(file.value.contentType) !in ValidContentTypes then
      Some(HttpError(400, "Invalid file type: '" + NormalisedType(file.value.contentType) + "'. Please upload a valid .jpg or .png image."))
    else if file.value.bytes == [] || StripBytes(file.value.bytes) == StringBytes || |file.value.bytes| <= 7 then
      Some(HttpError(400, "Uploaded image is invalid or empty."))
    else if !decodable then
      Some(HttpError(400, "Uploaded file is not a valid image."))
    else None
  }

  /** An upload passes exactly when a file is present, its normalised type
      is JPEG or PNG, it has more than seven bytes which are not `string`
      once trimmed, and it decodes; every failure is a 400. */
  lemma UploadErrorSpec(file: Option<ImageFile>, decodable: bool)
    ensures var r := UploadError(file, decodable);
            && (r.None? <==> file.Some? && NormalisedType(file.value.contentType) in ValidContentTypes
                             && |file.value.bytes| > 7 && StripBytes(file.value.bytes) != StringBytes && decodable)
            && (r.Some? ==> r.value.status == 400)
  {
  }

  /** A payload of seven bytes or fewer is refused whatever its type. */
  lemma ShortPayloadRefused(file: ImageFile, decodable: bool)
    requires NormalisedType(file.contentType) in ValidContentTypes && |file.bytes| <= 7
    ensures UploadError(Some(file), decodable) == Some(HttpError(400, "Uploaded image is invalid or empty."))
  {
  }

  // -----------------------------------------------------------------------
  // OCR lookup

  /** The words longer than two characters, in order. */
  function LongWords(words: seq<string>): seq<string>
  {
    if words == [] then []
    else if |words[0]| > 2 then [words[0]] + LongWords(words[1..])
    else LongWords(words[1..])
  }

  lemma {:induction false} LongWordsSpec(words: seq<string>)
    ensures forall w :: w in LongWords(words) <==> w in words && |w| > 2
  {
    if words != [] {
      LongWordsSpec(words[1..]);
      assert forall w :: w in words <==> w == words[0] || w in words[1..];
    }
  }

  /** The OCR text: the recognised fragments joined by spaces, trimmed. */
  function OcrText(fragments: seq<string>): string {
    Strip(Join(fragments, " "))
  }

  /** The words used for the lookup; none when the OCR text is empty. */
  function OcrWords(fragments: seq<string>): seq<string>
  {
    var text := OcrText(fragments);
    if text == [] then [] else LongWords(Words(text))
  }

  /** Only the words of the OCR text longer than two characters are used,
      and none when the text is empty. */
  lemma OcrWordsSpec(fragments: seq<string>)
    ensures OcrText(fragments) == [] ==> OcrWords(fragments) == []
    ensures forall w :: w in OcrWords(fragments) <==> w in Words(OcrText(fragments)) && |w| > 2
  {
    if OcrText(fragments) != [] {
      LongWordsSpec(Words(OcrText(fragments)));
    }
  }

  /** The row's `ocr_text` contains one of the words, ignoring case. */
  predicate RowMatches(row: ImageLabel, words: seq<string>) {
    exists w :: w in words && ContainsIgnoreCase(row.ocrText, w)
  }

  /** The matching rows, in table order. */
  function MatchingRows(table: seq<ImageLabel>, words: seq<string>): seq<ImageLabel>
  {
    if table == [] then []
    else if RowMatches(table[0], words) then [table[0]] + MatchingRows(table[1..], words)
    else MatchingRows(table[1..], words)
  }

  /** A row is looked up exactly when it matches; no words, no rows. */
  lemma {:induction false} MatchingRowsSpec(table: seq<ImageLabel>, words: seq<string>)
    ensures forall row :: row in MatchingRows(table, words) <==> row in table && RowMatches(row, words)
    ensures words == [] ==> MatchingRows(table, words) == []
  {
    if table != [] {
      MatchingRowsSpec(table[1..], words);
      assert forall row :: row in table <==> row == table[0] || row in table[1..];
    }
  }

  /** The dictionary key of a product name. */
  function Key(name: string): string {
    Lower(Strip(name))
  }

  /** The stored labels as dictionary entries: keyed by their trimmed,
      lower-cased name, holding the name and category as stored. */
  function RowEntries(rows: seq<ImageLabel>): (es: seq<(string, Label)>)
    ensures |es| == |rows|
    ensures forall i :: 0 <= i < |rows| ==> es[i] == (Key(rows[i].productName), Label(rows[i].productName, rows[i].category))
  {
    seq(|rows|, i requires 0 <= i < |rows| => (Key(rows[i].productName), Label(rows[i].productName, rows[i].category)))
  }

  /** The loop over the matching rows. */
  method MergeRows(unique: Dict<string, Label>, rows: seq<ImageLabel>) returns (merged: Dict<string, Label>)
    ensures merged == InsertAll(unique, RowEntries(rows))
  {
    merged := unique;
    for i := 0 to |rows|
      invariant InsertAll(merged, RowEntries(rows)[i..]) == InsertAll(unique, RowEntries(rows))
    {
      var r := rows[i];
      var key := Key(r.productName);
      assert RowEntries(rows)[i..][1..] == RowEntries(rows)[i + 1..];
      if key !in Keys(merged) {
        merged := merged + [(key, Label(r.productName, r.category))];
      }
    }
  }

  /** The dictionary before the first model call. */
  function StoredLabels(fragments: seq<string>, table: seq<ImageLabel>): Dict<string, Label> {
    InsertAll([], RowEntries(MatchingRows(table, OcrWords(fragments))))
  }

  // -----------------------------------------------------------------------
  // Model items

  /** A field's value once trimmed and lower-cased, "unknown" when absent;
      `None` when it is not a string (`.strip()` raises). */
  function FieldText(f: Field): Option<string> {
    match f
    case Absent => Some("unknown")
    case Str(s) => Some(Lower(Strip(s)))
    case NotStr => None
  }

  /** What the item loop does with one item. */
  datatype ItemOutcome = Raises | Skipped | Entry(product: string, category: string)

  function ReadItem(item: Item): ItemOutcome {
    match item
    case NotObject => Raises
    case Object(name, cat) =>
      match FieldText(name)
      case None => Raises
      case Some(product) =>
        match FieldText(cat)
        case None => Raises
        case Some(category) =>
          if product == "string" || category == "string" then Skipped
          else if product in KnownBrands then Entry(product, "other")
          else Entry(product, category)
  }

  /** An item raises exactly when it is not an object or a field is not a
      string; it is skipped exactly when a normalised field is "string";
      every other item is kept, with its normalised name and category,
      except that the category of a known brand is "other". */
  lemma ReadItemSpec(item: Item)
    ensures var o := ReadItem(item);
            && (o.Entry? ==> item.Object? && o.product != "string" && o.category != "string"
                             && Some(o.product) == FieldText(item.productName)
                             && (o.product in KnownBrands ==> o.category == "other")
                             && (o.product !in KnownBrands ==> Some(o.category) == FieldText(item.category)))
            && (o.Raises? <==> item.NotObject? || FieldText(item.productName).None? || FieldText(item.category).None?)
            && (o.Skipped? <==> item.Object? && FieldText(item.productName).Some? && FieldText(item.category).Some?
                                && (FieldText(item.productName).value == "string" || FieldText(item.category).value == "string"))
  {
  }

  /** The entries the items contribute, up to the first item that raises. */
  function ItemEntries(items: seq<Item>): seq<(string, Label)>
  {
    if items == [] then []
    else match ReadItem(items[0])
      case Raises => []
      case Skipped => ItemEntries(items[1..])
      case Entry(p, c) => [(p, Label(p, c))] + ItemEntries(items[1..])
  }

  /** Some item raises. */
  predicate ItemsRaise(items: seq<Item>) {
    items != [] && (ReadItem(items[0]).Raises? || ItemsRaise(items[1..]))
  }

  /** Every entry comes from an item, is keyed by its own product name and
      carries no "string" field. */
  lemma {:induction false} ItemEntriesSound(items: seq<Item>)
    ensures forall e :: e in ItemEntries(items) ==>
              e.0 == e.1.productName && e.1.productName != "string" && e.1.category != "string"
              && exists i :: 0 <= i < |items| && ReadItem(items[i]) == Entry(e.0, e.1.category)
  {
    if items != [] {
      var rest := items[1..];
      ItemEntriesSound(rest);
      ReadItemSpec(items[0]);
      forall e | e in ItemEntries(items)
        ensures e.0 == e.1.productName && e.1.productName != "string" && e.1.category != "string"
        ensures exists i :: 0 <= i < |items| && ReadItem(items[i]) == Entry(e.0, e.1.category)
      {
        if e in ItemEntries(rest) {
          var i :| 0 <= i < |rest| && ReadItem(rest[i]) == Entry(e.0, e.1.category);
          assert items[i + 1] == rest[i];
        } else {
          assert ReadItem(items[0]) == Entry(e.0, e.1.category);
        }
      }
    }
  }

  /** Without a raising item, every kept item has an entry. */
  lemma {:induction false} ItemEntriesComplete(items: seq<Item>)
    ensures !ItemsRaise(items) ==>
              forall i :: 0 <= i < |items| && ReadItem(items[i]).Entry? ==>
                var o := ReadItem(items[i]); (o.product, Label(o.product, o.category)) in ItemEntries(items)
  {
    if items != [] && !ItemsRaise(items) {
      var rest := items[1..];
      ItemEntriesComplete(rest);
      forall i | 0 <= i < |items| && ReadItem(items[i]).Entry?
        ensures var o := ReadItem(items[i]); (o.product, Label(o.product, o.category)) in ItemEntries(items)
      {
        if i > 0 {
          assert items[i] == rest[i - 1];
        }
      }
    }
  }

  /** One item of the item loop. */
  lemma ItemStep(items: seq<Item>, i: nat)
    requires i < |items|
    ensures ItemEntries(items[i..]) == match ReadItem(items[i])
              case Raises => []
              case Skipped => ItemEntries(items[i + 1..])
              case Entry(p, c) => [(p, Label(p, c))] + ItemEntries(items[i + 1..])
    ensures ItemsRaise(items[i..]) <==> ReadItem(items[i]).Raises? || ItemsRaise(items[i + 1..])
  {
    assert items[i..][1..] == items[i + 1..];
  }

  /** The `for item in parsed` loop, which writes into the shared
      dictionary until an item raises. */
  method MergeItems(unique: Dict<string, Label>, items: seq<Item>) returns (merged: Dict<string, Label>, raised: bool)
    ensures merged == InsertAll(unique, ItemEntries(items))
    ensures raised == ItemsRaise(items)
  {
    merged := unique;
    var i := 0;
    while i < |items|
      invariant 0 <= i <= |items|
      invariant InsertAll(merged, ItemEntries(items[i..])) == InsertAll(unique, ItemEntries(items))
      invariant ItemsRaise(items) <==> ItemsRaise(items[i..])
    {
      ItemStep(items, i);
      var outcome := ReadItem(items[i]);
      if outcome.Raises? {
        return merged, true;
      }
      if outcome.Entry? {
        InsertAllCons(merged, outcome.product, Label(outcome.product, outcome.category), ItemEntries(items[i + 1..]));
        if outcome.product !in Keys(merged) {
          merged := merged + [(outcome.product, Label(outcome.product, outcome.category))];
        }
      }
      i := i + 1;
    }
    return merged, false;
  }

  // -----------------------------------------------------------------------
  // Attempts

  /** One attempt: the dictionary afterwards (the writes of a failed
      attempt stay) and whether it returns. An attempt fails without a
      reply, with empty content, without a `[...]` span (first `[` to the
      next `]`), when the span is not a JSON list, when an item raises, or
      when the dictionary is still empty. */
  function Attempt(unique: Dict<string, Label>, reply: Reply, decode: string -> Parsed): (Dict<string, Label>, bool)
  {
    if reply.NoReply? || reply.text == [] then (unique, false)
    else
      var span := LazySpan(reply.text, '[', ']');
      if span.None? then (unique, false)
      else
        var parsed := decode(span.value);
        if !parsed.List? then (unique, false)
        else
          var merged := InsertAll(unique, ItemEntries(parsed.items));
          (merged, !ItemsRaise(parsed.items) && merged != [])
  }

  /** The step the retry loop repeats: attempt number `n` on the dictionary `u`. */
  type Step = (Dict<string, Label>, nat) -> (Dict<string, Label>, bool)

  function ModelStep(reply: nat -> Reply, decode: string -> Parsed): Step {
    (u: Dict<string, Label>, n: nat) => Attempt(u, reply(n), decode)
  }

  /** The attempts from number `attempt` on, until one returns or
      `MaxRetries` have been made; the dictionary carries over. */
  function Retry(unique: Dict<string, Label>, step: Step, attempt: nat): (Dict<string, Label>, bool)
    decreases MaxRetries - attempt
  {
    if attempt >= MaxRetries then (unique, false)
    else
      var once := step(unique, attempt);
      if once.1 then once else Retry(once.0, step, attempt + 1)
  }

  const RetryFailure := HttpError(500, "Vision model failed after multiple attempts.")

  /** The whole endpoint after the access check. */
  function Classify(file: Option<ImageFile>, decodable: bool, fragments: seq<string>, table: seq<ImageLabel>,
                    reply: nat -> Reply, decode: string -> Parsed): Result<seq<Label>, HttpError>
  {
    var err := UploadError(file, decodable);
    if err.Some? then Err(err.value)
    else
      var outcome := Retry(StoredLabels(fragments, table), ModelStep(reply, decode), 0);
      if outcome.1 then Ok(Values(outcome.0)) else Err(RetryFailure)
  }

  /** One attempt, as the body of the `try`. */
  method RunAttempt(unique: Dict<string, Label>, reply: Reply, decode: string -> Parsed)
    returns (merged: Dict<string, Label>, ok: bool)
    ensures (merged, ok) == Attempt(unique, reply, decode)
  {
    merged := unique;
    if reply.NoReply? || reply.text == [] {
      return merged, false;
    }
    var span := LazySpan(reply.text, '[', ']');
    if span.None? {
      return merged, false;
    }
    var parsed := decode(span.value);
    if !parsed.List? {
      return merged, false;
    }
    var raised;
    merged, raised := MergeItems(unique, parsed.items);
    if raised {
      return merged, false;
    }
    return merged, merged != [];
  }

  /** The route: validation, OCR lookup, then the retry loop. */
  method ImageClassification(file: Option<ImageFile>, decodable: bool, fragments: seq<string>, table: seq<ImageLabel>,
                             reply: nat -> Reply, decode: string -> Parsed) returns (r: Result<seq<Label>, HttpError>)
    ensures r == Classify(file, decodable, fragments, table, reply, decode)
  {
    var err := UploadError(file, decodable);
    if err.Some? {
      return Err(err.value);
    }
    var unique: Dict<string, Label> := [];
    var ocrText := OcrText(fragments);
    MatchingRowsSpec(table, []);
    if ocrText != [] {
      var words := LongWords(Words(ocrText));
      if words != [] {
        var dbResults := MatchingRows(table, words);
        unique := MergeRows(unique, dbResults);
      } else {
        MatchingRowsSpec(table, words);
      }
    }
    for attempt := 0 to MaxRetries
      invariant Retry(unique, ModelStep(reply, decode), attempt) == Retry(StoredLabels(fragments, table), ModelStep(reply, decode), 0)
    {
      assert ModelStep(reply, decode)(unique, attempt) == Attempt(unique, reply(attempt), decode);
      var merged, ok := RunAttempt(unique, reply(attempt), decode);
      unique := merged;
      if ok {
        return Ok(Values(unique));
      }
    }
    return Err(RetryFailure);
  }

  // -----------------------------------------------------------------------
  // Properties

  /** Every key keeps the value of its first insertion, across attempts. */
  predicate Extends(d: Dict<string, Label>, e: Dict<string, Label>) {
    forall k :: k in Keys(d) ==> Lookup(e, k) == Lookup(d, k)
  }

  lemma AttemptExtends(unique: Dict<string, Label>, reply: Reply, decode: string -> Parsed)
    ensures Extends(unique, Attempt(unique, reply, decode).0)
  {
    if reply.Content? && reply.text != [] {
      var span := LazySpan(reply.text, '[', ']');
      if span.Some? && decode(span.value).List? {
        forall k | k in Keys(unique)
          ensures Lookup(Attempt(unique, reply, decode).0, k) == Lookup(unique, k)
        {
          InsertAllLookup(unique, ItemEntries(decode(span.value).items), k);
        }
      }
    }
  }

  lemma {:induction false} RetryExtends(unique: Dict<string, Label>, step: Step, attempt: nat)
    requires forall u, n: nat :: Extends(u, step(u, n).0)
    ensures Extends(unique, Retry(unique, step, attempt).0)
    decreases MaxRetries - attempt
  {
    if attempt < MaxRetries {
      var once := step(unique, attempt);
      if !once.1 {
        RetryExtends(once.0, step, attempt + 1);
        var final := Retry(once.0, step, attempt + 1).0;
        forall k | k in Keys(unique)
          ensures Lookup(final, k) == Lookup(unique, k)
        {
          assert Lookup(once.0, k) == Lookup(unique, k);
        }
      }
    }
  }

  lemma ModelStepExtends(reply: nat -> Reply, decode: string -> Parsed)
    ensures forall u, n: nat :: Extends(u, ModelStep(reply, decode)(u, n).0)
  {
    forall u, n: nat ensures Extends(u, ModelStep(reply, decode)(u, n).0) {
      AttemptExtends(u, reply(n), decode);
    }
  }

  /** A matching stored label is returned as stored, under its key, even
      when the model names the same product or a known brand: model items
      never override it, and the first matching row with that key wins. */
  lemma StoredLabelWins(file: Option<ImageFile>, decodable: bool, fragments: seq<string>, table: seq<ImageLabel>,
                        reply: nat -> Reply, decode: string -> Parsed, row: ImageLabel)
    requires UploadError(file, decodable).None?
    requires row in MatchingRows(table, OcrWords(fragments))
    ensures var entries := RowEntries(MatchingRows(table, OcrWords(fragments)));
            var k := Key(row.productName);
            var r := Classify(file, decodable, fragments, table, reply, decode);
            && Lookup(entries, k).Some?
            && Lookup(StoredLabels(fragments, table), k) == Lookup(entries, k)
            && (r.Ok? ==> Lookup(entries, k).value in r.value)
  {
    var rows := MatchingRows(table, OcrWords(fragments));
    var entries := RowEntries(rows);
    var k := Key(row.productName);
    var i :| 0 <= i < |rows| && rows[i] == row;
    assert Keys(entries)[i] == k;
    InsertAllLookup([], entries, k);
    ModelStepExtends(reply, decode);
    RetryKeepsValue(StoredLabels(fragments, table), ModelStep(reply, decode), k);
  }

  /** A key present before the attempts keeps its value and is returned. */
  lemma RetryKeepsValue(unique: Dict<string, Label>, step: Step, k: string)
    requires forall u, n: nat :: Extends(u, step(u, n).0)
    requires Lookup(unique, k).Some?
    ensures var outcome := Retry(unique, step, 0);
            outcome.1 ==> Lookup(unique, k).value in Values(outcome.0)
  {
    RetryExtends(unique, step, 0);
    LookupInValues(Retry(unique, step, 0).0, k);
  }

  /** When no attempt returns, neither does the loop: there is no other exit. */
  lemma RetryAllFail(unique: Dict<string, Label>, step: Step)
    requires forall u, n: nat :: n < MaxRetries ==> !step(u, n).1
    ensures !Retry(unique, step, 0).1
  {
    var u1 := step(unique, 0).0;
    var u2 := step(u1, 1).0;
    assert Retry(u2, step, 2) == Retry(step(u2, 2).0, step, 3);
  }

  /** When no attempt gets a reply the request fails with a 500, even if
      stored labels matched: they are never returned on their own. */
  lemma NoReplyFails(file: Option<ImageFile>, decodable: bool, fragments: seq<string>, table: seq<ImageLabel>,
                     reply: nat -> Reply, decode: string -> Parsed)
    requires UploadError(file, decodable).None?
    requires forall n: nat :: n < MaxRetries ==> reply(n) == NoReply
    ensures Classify(file, decodable, fragments, table, reply, decode) == Err(RetryFailure)
  {
    NoReplyRetryFails(StoredLabels(fragments, table), reply, decode);
  }

  /** The retry loop over replies that never come fails. */
  lemma NoReplyRetryFails(unique: Dict<string, Label>, reply: nat -> Reply, decode: string -> Parsed)
    requires forall n: nat :: n < MaxRetries ==> reply(n) == NoReply
    ensures !Retry(unique, ModelStep(reply, decode), 0).1
  {
    var step := ModelStep(reply, decode);
    forall u, n: nat | n < MaxRetries ensures !step(u, n).1 {
      assert step(u, n) == Attempt(u, NoReply, decode);
    }
    RetryAllFail(unique, step);
  }

  /** The items a failed attempt wrote before an item raised stay in the
      dictionary: when the first reply lists a kept item and then an element
      that is not an object, and the second reply lists nothing, the
      request succeeds with that item alone. */
  lemma FailedAttemptWritesStay(file: Option<ImageFile>, decodable: bool, table: seq<ImageLabel>,
                                reply: nat -> Reply, decode: string -> Parsed, item: Item)
    requires UploadError(file, decodable).None?
    requires ReadItem(item).Entry?
    requires reply(0).Content? && reply(0).text != [] && LazySpan(reply(0).text, '[', ']').Some?
    requires decode(LazySpan(reply(0).text, '[', ']').value) == List([item, NotObject])
    requires reply(1).Content? && reply(1).text != [] && LazySpan(reply(1).text, '[', ']').Some?
    requires decode(LazySpan(reply(1).text, '[', ']').value) == List([])
    ensures var o := ReadItem(item);
            Classify(file, decodable, [], table, reply, decode) == Ok([Label(o.product, o.category)])
  {
    var o := ReadItem(item);
    var d := [(o.product, Label(o.product, o.category))];
    WriteThenEmpty(reply, decode, item);
    NoFragmentsNoLabels(table);
    assert Values(d) == [Label(o.product, o.category)];
  }

  /** The retry loop over those two replies: the first attempt writes the
      item and fails, the second changes nothing and succeeds. */
  lemma WriteThenEmpty(reply: nat -> Reply, decode: string -> Parsed, item: Item)
    requires ReadItem(item).Entry?
    requires reply(0).Content? && reply(0).text != [] && LazySpan(reply(0).text, '[', ']').Some?
    requires decode(LazySpan(reply(0).text, '[', ']').value) == List([item, NotObject])
    requires reply(1).Content? && reply(1).text != [] && LazySpan(reply(1).text, '[', ']').Some?
    requires decode(LazySpan(reply(1).text, '[', ']').value) == List([])
    ensures var o := ReadItem(item);
            Retry([], ModelStep(reply, decode), 0) == ([(o.product, Label(o.product, o.category))], true)
  {
    var o := ReadItem(item);
    var d := [(o.product, Label(o.product, o.category))];
    var step := ModelStep(reply, decode);
    FirstAttemptWrites(reply(0), decode, item);
    EmptyListKeeps(d, reply(1), decode);
    assert step([], 0) == (d, false);
    assert step(d, 1) == (d, true);
    RetrySecondSucceeds(step, d);
  }

  /** A reply that lists a kept item and then an element that is not an
      object: the item is written, and the attempt fails. */
  lemma FirstAttemptWrites(reply: Reply, decode: string -> Parsed, item: Item)
    requires ReadItem(item).Entry?
    requires reply.Content? && reply.text != [] && LazySpan(reply.text, '[', ']').Some?
    requires decode(LazySpan(reply.text, '[', ']').value) == List([item, NotObject])
    ensures var o := ReadItem(item);
            Attempt([], reply, decode) == ([(o.product, Label(o.product, o.category))], false)
  {
    var o := ReadItem(item);
    var items := [item, NotObject];
    var d := [(o.product, Label(o.product, o.category))];
    ItemStep(items, 0);
    ItemStep(items, 1);
    assert items[2..] == [];
    assert ItemEntries(items) == d;
    assert InsertAll([], d) == d by {
      assert d[1..] == [];
      assert PutIfAbsent([], o.product, Label(o.product, o.category)) == d;
    }
  }

  /** A known brand is filed under "other", whatever category the model gave. */
  lemma BrandItemRead(name: string, category: Field)
    requires Lower(Strip(name)) in KnownBrands
    requires FieldText(category).Some? && FieldText(category).value != "string"
    ensures ReadItem(Object(Str(name), category)) == Entry(Lower(Strip(name)), "other")
  {
    assert Lower(Strip(name)) != "string" by { StringNotBrand(Lower(Strip(name))); }
  }

  /** No known brand is the placeholder "string". */
  lemma StringNotBrand(b: string)
    requires b in KnownBrands
    ensures b != "string"
  {
  }

  /** A reply whose list is empty changes nothing and succeeds once the
      dictionary holds something. */
  lemma EmptyListKeeps(unique: Dict<string, Label>, reply: Reply, decode: string -> Parsed)
    requires unique != []
    requires reply.Content? && reply.text != [] && LazySpan(reply.text, '[', ']').Some?
    requires decode(LazySpan(reply.text, '[', ']').value) == List([])
    ensures Attempt(unique, reply, decode) == (unique, true)
  {
    assert ItemEntries([]) == [];
    assert InsertAll(unique, []) == unique;
  }

  /** A failed first attempt followed by a successful second one. */
  lemma RetrySecondSucceeds(step: Step, d: Dict<string, Label>)
    requires step([], 0) == (d, false) && step(d, 1) == (d, true)
    ensures Retry([], step, 0) == (d, true)
  {
    assert Retry([], step, 0) == Retry(d, step, 1);
  }

  /** Without OCR text no stored label is looked up. */
  lemma NoFragmentsNoLabels(table: seq<ImageLabel>)
    ensures StoredLabels([], table) == []
  {
    OcrWordsSpec([]);
    MatchingRowsSpec(table, OcrWords([]));
  }

  /** Only the first three attempts matter: there is no fourth call. */
  lemma {:induction false} AtMostThreeAttempts(unique: Dict<string, Label>, step: Step, other: Step, attempt: nat)
    requires forall u, n: nat :: n < MaxRetries ==> step(u, n) == other(u, n)
    ensures Retry(unique, step, attempt) == Retry(unique, other, attempt)
    decreases MaxRetries - attempt
  {
    if attempt < MaxRetries {
      var once := step(unique, attempt);
      if !once.1 {
        AtMostThreeAttempts(once.0, step, other, attempt + 1);
      }
    }
  }

  /** Replies after the third never change the result. */
  lemma ThreeRepliesDecide(file: Option<ImageFile>, decodable: bool, fragments: seq<string>, table: seq<ImageLabel>,
                           reply: nat -> Reply, other: nat -> Reply, decode: string -> Parsed)
    requires forall n: nat :: n < MaxRetries ==> reply(n) == other(n)
    ensures Classify(file, decodable, fragments, table, reply, decode) == Classify(file, decodable, fragments, table, other, decode)
  {
    var step, step' := ModelStep(reply, decode), ModelStep(other, decode);
    forall u, n: nat | n < MaxRetries ensures step(u, n) == step'(u, n) {
      assert step(u, n) == Attempt(u, reply(n), decode);
      assert step'(u, n) == Attempt(u, other(n), decode);
    }
    AtMostThreeAttempts(StoredLabels(fragments, table), step, step', 0);
  }
}
