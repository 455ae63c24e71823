/** backend/service/agentic/agentic_product_search_routes.py: product
    search and purchase. A search matches the catalogue case-insensitively
    on the query's noun phrases and returns at most three distinct products;
    when nothing matches it asks an external language model for products,
    gives them synthetic ids from 10001 on and remembers their names in an
    in-memory map. A purchase decrements the stock of a catalogue product or
    accepts a remembered synthetic product.

    The noun-phrase extraction, the language model and the JSON decoder are
    oracles: their results are inputs. */
module ProductSearch {
  import opened Wrappers
  import opened Text

  /** A row of the `products_agentic` table. */
  datatype Product = Product(id: int, name: string, category: string, price: string, inStock: int)

  /** The `product_id` field of the request: absent, an integer or a string. */
  datatype ProductId = NoId | IntId(n: int) | StrId(s: string)

  /** The body of a request. */
  datatype Request = Request(query: string, action: string, productId: ProductId)

  /** A product in a response: a catalogue row, or a suggestion of the
      language model under its synthetic id. */
  datatype Listing = Local(product: Product) | Synthetic(id: int, name: string)

  datatype Response = Response(message: string, products: seq<Listing>, purchased: bool)

  const FirstSyntheticId: int := 10001
  const MaxResults: nat := 3

  /** The checks on the body, which answer 422: a blank query, an action
      other than "search" or "purchase", a purchase without a non-zero
      integer `product_id`. */
  function Validate(req: Request): (r: Option<HttpError>)
    ensures r.None? <==> !IsBlank(req.query) && req.action in ["search", "purchase"]
                         && (req.action == "purchase" ==> req.productId.IntId? && req.productId.n != 0)
    ensures r.Some? ==> r.value.status == 422
  {
    if IsBlank(req.query) then
      Some(HttpError(422, "Invalid or missing 'query' field in request body."))
    else if req.action !in ["search", "purchase"] then
      Some(HttpError(422, "Invalid or missing 'action' field in request body."))
    else if req.action == "purchase" && !(req.productId.IntId? && req.productId.n != 0) then
      Some(HttpError(422, "Invalid or missing 'product_id' field for purchase action."))
    else None
  }

  /** `extract_keywords`: the noun phrases, or the stripped query itself
      when there is none. */
  function Keywords(query: string, nounPhrases: seq<string>): (kws: seq<string>)
    ensures |kws| > 0
  {
    if nounPhrases != [] then nounPhrases else [Strip(query)]
  }

  /** The rows whose name or category contains `kw`, ignoring case. */
  function Matching(catalog: seq<Product>, kw: string): (ms: seq<Product>)
    ensures |ms| <= |catalog|
    ensures forall p :: p in ms <==> p in catalog && (ContainsIgnoreCase(p.name, kw) || ContainsIgnoreCase(p.category, kw))
  {
    if catalog == [] then []
    else
      var rest := Matching(catalog[1..], kw);
      var p := catalog[0];
      assert catalog == [p] + catalog[1..];
      if ContainsIgnoreCase(p.name, kw) || ContainsIgnoreCase(p.category, kw) then [p] + rest else rest
  }

  /** The matches of every keyword, keyword by keyword. */
  function Candidates(catalog: seq<Product>, kws: seq<string>): (ms: seq<Product>)
    ensures forall p :: p in ms <==> p in catalog && exists k :: 0 <= k < |kws| && (ContainsIgnoreCase(p.name, kws[k]) || ContainsIgnoreCase(p.category, kws[k]))
  {
    if kws == [] then []
    else
      var n := |kws| - 1;
      var ms := Candidates(catalog, kws[..n]) + Matching(catalog, kws[n]);
      assert forall k :: 0 <= k < n ==> kws[..n][k] == kws[k];
      ms
  }

  /** The first products of `ms` with an id not yet taken, at most `room`. */
  function FirstDistinct(ms: seq<Product>, taken: set<int>, room: nat): seq<Product>
  {
    if ms == [] || room == 0 then []
    else if ms[0].id in taken then FirstDistinct(ms[1..], taken, room)
    else [ms[0]] + FirstDistinct(ms[1..], taken + {ms[0].id}, room - 1)
  }

  /** At most `room` products, all from `ms`, none with a taken id. */
  lemma {:induction false} FirstDistinctBounds(ms: seq<Product>, taken: set<int>, room: nat)
    ensures var r := FirstDistinct(ms, taken, room);
            |r| <= room && forall i :: 0 <= i < |r| ==> r[i] in ms && r[i].id !in taken
  {
    if ms != [] && room != 0 {
      assert forall p :: p in ms[1..] ==> p in ms;
      if ms[0].id in taken {
        FirstDistinctBounds(ms[1..], taken, room);
      } else {
        FirstDistinctBounds(ms[1..], taken + {ms[0].id}, room - 1);
        var rest := FirstDistinct(ms[1..], taken + {ms[0].id}, room - 1);
        assert forall i :: 1 <= i <= |rest| ==> ([ms[0]] + rest)[i] == rest[i - 1];
      }
    }
  }

  /** No id is listed twice. */
  predicate UniqueIds(ps: seq<Product>) {
    forall i, j :: 0 <= i < j < |ps| ==> ps[i].id != ps[j].id
  }

  lemma {:induction false} FirstDistinctUnique(ms: seq<Product>, taken: set<int>, room: nat)
    ensures UniqueIds(FirstDistinct(ms, taken, room))
  {
    if ms != [] && room != 0 {
      if ms[0].id in taken {
        FirstDistinctUnique(ms[1..], taken, room);
      } else {
        FirstDistinctUnique(ms[1..], taken + {ms[0].id}, room - 1);
        FirstDistinctBounds(ms[1..], taken + {ms[0].id}, room - 1);
        var rest := FirstDistinct(ms[1..], taken + {ms[0].id}, room - 1);
        var r := [ms[0]] + rest;
        assert FirstDistinct(ms, taken, room) == r;
        assert forall i :: 1 <= i < |r| ==> r[i] == rest[i - 1];
      }
    }
  }

  /** When there is room left, every id of `ms` is taken or listed: the
      result is cut short only by the cap. */
  lemma {:induction false} FirstDistinctComplete(ms: seq<Product>, taken: set<int>, room: nat)
    ensures var r := FirstDistinct(ms, taken, room);
            |r| < room ==> forall p :: p in ms ==> p.id in taken || exists i :: 0 <= i < |r| && r[i].id == p.id
  {
    if ms != [] && room != 0 {
      var r := FirstDistinct(ms, taken, room);
      if ms[0].id in taken {
        FirstDistinctComplete(ms[1..], taken, room);
        assert forall p :: p in ms ==> p == ms[0] || p in ms[1..];
      } else {
        FirstDistinctComplete(ms[1..], taken + {ms[0].id}, room - 1);
        var rest := FirstDistinct(ms[1..], taken + {ms[0].id}, room - 1);
        assert r == [ms[0]] + rest;
        if |r| < room {
          forall p | p in ms
            ensures p.id in taken || exists i :: 0 <= i < |r| && r[i].id == p.id
          {
            if p.id == ms[0].id {
              assert r[0].id == p.id;
            } else if p.id !in taken {
              assert p in ms[1..];
              var k :| 0 <= k < |rest| && rest[k].id == p.id;
              assert r[k + 1].id == p.id;
            }
          }
        }
      }
    }
  }

  /** The products are listed in first-seen order: each one is the first
      product of `ms` with its id, and their first positions increase. */
  lemma FirstDistinctFirstSeen(ms: seq<Product>, taken: set<int>, room: nat)
    ensures var r := FirstDistinct(ms, taken, room);
            && (forall k :: 0 <= k < |r| ==> FindProduct(ms, r[k].id) < |ms| && r[k] == ms[FindProduct(ms, r[k].id)])
            && (forall k, l :: 0 <= k < l < |r| ==> FindProduct(ms, r[k].id) < FindProduct(ms, r[l].id))
  {
    var r := FirstDistinct(ms, taken, room);
    forall k | 0 <= k < |r|
      ensures FindProduct(ms, r[k].id) < |ms| && r[k] == ms[FindProduct(ms, r[k].id)]
    {
      FirstSeenAt(ms, taken, room, k);
    }
    forall k, l | 0 <= k < l < |r|
      ensures FindProduct(ms, r[k].id) < FindProduct(ms, r[l].id)
    {
      OrderedAt(ms, taken, room, k, l);
    }
  }

  /** The tail of the search: an id other than the first product's is
      found one position further in `ms` than in `ms[1..]`. */
  lemma FindProductTail(ms: seq<Product>, id: int)
    requires ms != [] && ms[0].id != id
    ensures FindProduct(ms, id) == 1 + FindProduct(ms[1..], id)
  {
  }

  /** The products listed after the first product of `ms` is considered. */
  function Rest(ms: seq<Product>, taken: set<int>, room: nat): seq<Product>
    requires ms != [] && room != 0
  {
    if ms[0].id in taken then FirstDistinct(ms[1..], taken, room)
    else FirstDistinct(ms[1..], taken + {ms[0].id}, room - 1)
  }

  /** `FirstDistinct` seen from its first step. */
  lemma {:induction false} FirstDistinctUnfold(ms: seq<Product>, taken: set<int>, room: nat)
    requires ms != [] && room != 0
    ensures var rest := Rest(ms, taken, room);
            && (forall k :: 0 <= k < |rest| ==> rest[k].id != ms[0].id)
            && FirstDistinct(ms, taken, room) == (if ms[0].id in taken then rest else [ms[0]] + rest)
  {
    if ms[0].id in taken {
      FirstDistinctBounds(ms[1..], taken, room);
    } else {
      FirstDistinctBounds(ms[1..], taken + {ms[0].id}, room - 1);
    }
  }

  lemma {:induction false} FirstSeenAt(ms: seq<Product>, taken: set<int>, room: nat, k: nat)
    requires k < |FirstDistinct(ms, taken, room)|
    ensures var p := FirstDistinct(ms, taken, room)[k];
            FindProduct(ms, p.id) < |ms| && p == ms[FindProduct(ms, p.id)]
  {
    var r := FirstDistinct(ms, taken, room);
    var rest := Rest(ms, taken, room);
    FirstDistinctUnfold(ms, taken, room);
    var taken' := if ms[0].id in taken then taken else taken + {ms[0].id};
    var room' := if ms[0].id in taken then room else room - 1;
    if ms[0].id in taken || k > 0 {
      var k' := if ms[0].id in taken then k else k - 1;
      assert r[k] == rest[k'];
      FirstSeenAt(ms[1..], taken', room', k');
      FindProductTail(ms, rest[k'].id);
    }
  }

  lemma {:induction false} OrderedAt(ms: seq<Product>, taken: set<int>, room: nat, k: nat, l: nat)
    requires k < l < |FirstDistinct(ms, taken, room)|
    ensures var r := FirstDistinct(ms, taken, room);
            FindProduct(ms, r[k].id) < FindProduct(ms, r[l].id)
  {
    var r := FirstDistinct(ms, taken, room);
    var rest := Rest(ms, taken, room);
    FirstDistinctUnfold(ms, taken, room);
    var taken' := if ms[0].id in taken then taken else taken + {ms[0].id};
    var room' := if ms[0].id in taken then room else room - 1;
    var l' := if ms[0].id in taken then l else l - 1;
    assert r[l] == rest[l'];
    FindProductTail(ms, rest[l'].id);
    if ms[0].id in taken || k > 0 {
      var k' := if ms[0].id in taken then k else k - 1;
      assert r[k] == rest[k'];
      OrderedAt(ms[1..], taken', room', k', l');
      FindProductTail(ms, rest[k'].id);
    }
  }

  /** No product is passed over: every product of `ms` whose id is free
      and whose first position precedes that of a listed product is itself
      listed before it. */
  lemma FirstDistinctNoSkip(ms: seq<Product>, taken: set<int>, room: nat)
    ensures var r := FirstDistinct(ms, taken, room);
            forall j, l :: 0 <= j < |ms| && 0 <= l < |r| && ms[j].id !in taken && j < FindProduct(ms, r[l].id)
              ==> exists k :: 0 <= k < l && r[k].id == ms[j].id
  {
    var r := FirstDistinct(ms, taken, room);
    forall j, l | 0 <= j < |ms| && 0 <= l < |r| && ms[j].id !in taken && j < FindProduct(ms, r[l].id)
      ensures exists k :: 0 <= k < l && r[k].id == ms[j].id
    {
      NoSkipAt(ms, taken, room, j, l);
    }
  }

  lemma {:induction false} NoSkipAt(ms: seq<Product>, taken: set<int>, room: nat, j: nat, l: nat)
    requires j < |ms| && l < |FirstDistinct(ms, taken, room)|
    requires ms[j].id !in taken && j < FindProduct(ms, FirstDistinct(ms, taken, room)[l].id)
    ensures exists k :: 0 <= k < l && FirstDistinct(ms, taken, room)[k].id == ms[j].id
  {
    var r := FirstDistinct(ms, taken, room);
    var rest := Rest(ms, taken, room);
    FirstDistinctUnfold(ms, taken, room);
    var taken' := if ms[0].id in taken then taken else taken + {ms[0].id};
    var room' := if ms[0].id in taken then room else room - 1;
    if ms[0].id !in taken && ms[j].id == ms[0].id {
      assert r[0].id == ms[j].id;
    } else {
      var l' := if ms[0].id in taken then l else l - 1;
      assert r[l] == rest[l'];
      FindProductTail(ms, rest[l'].id);
      assert ms[j] == ms[1..][j - 1];
      NoSkipAt(ms[1..], taken', room', j - 1, l');
      var k :| 0 <= k < l' && rest[k].id == ms[j].id;
      var k' := if ms[0].id in taken then k else k + 1;
      assert r[k'] == rest[k];
    }
  }

  /** One step of the deduplicating loop. */
  lemma FirstDistinctStep(ms: seq<Product>, i: nat, taken: set<int>, room: nat)
    requires i < |ms| && room > 0
    ensures FirstDistinct(ms[i..], taken, room)
            == if ms[i].id in taken then FirstDistinct(ms[i + 1..], taken, room)
               else [ms[i]] + FirstDistinct(ms[i + 1..], taken + {ms[i].id}, room - 1)
  {
    assert ms[i..][1..] == ms[i + 1..];
  }

  /** The `for kw in keywords` loop: `all_matches` extended by each query. */
  method CollectCandidates(catalog: seq<Product>, kws: seq<string>) returns (allMatches: seq<Product>)
    ensures allMatches == Candidates(catalog, kws)
  {
    allMatches := [];
    for k := 0 to |kws|
      invariant allMatches == Candidates(catalog, kws[..k])
    {
      assert kws[..k + 1][..k] == kws[..k];
      allMatches := allMatches + Matching(catalog, kws[k]);
    }
    assert kws[..|kws|] == kws;
  }

  /** The deduplicating loop: a product is added when its id is new, and
      the loop stops as soon as three are collected. */
  method Deduplicate(allMatches: seq<Product>) returns (products: seq<Product>)
    ensures products == FirstDistinct(allMatches, {}, MaxResults)
  {
    var seen: set<int> := {};
    products := [];
    var i := 0;
    while i < |allMatches|
      invariant 0 <= i <= |allMatches|
      invariant |products| < MaxResults
      invariant products + FirstDistinct(allMatches[i..], seen, MaxResults - |products|) == FirstDistinct(allMatches, {}, MaxResults)
    {
      var p := allMatches[i];
      FirstDistinctStep(allMatches, i, seen, MaxResults - |products|);
      ghost var before := products;
      if p.id !in seen {
        seen := seen + {p.id};
        products := products + [p];
        assert before + ([p] + FirstDistinct(allMatches[i + 1..], seen, MaxResults - |products|))
            == products + FirstDistinct(allMatches[i + 1..], seen, MaxResults - |products|);
      }
      if |products| >= MaxResults {
        assert products == FirstDistinct(allMatches, {}, MaxResults);
        return;
      }
      i := i + 1;
    }
    assert allMatches[i..] == [];
  }

  /** What the language model's list yields: the names that got synthetic
      ids, in order, and whether an item without a usable name aborted the
      loop. The i-th name has id `FirstSyntheticId + i`. */
  datatype Scan = Scan(names: seq<string>, failed: bool)

  /** The loop over the decoded list: a name not seen before gets the next
      synthetic id, and the loop stops after three; an item whose name
      cannot be read (`None`) raises, which ends the loop. */
  function ScanItems(items: seq<Option<string>>, names: seq<string>): Scan
    decreases |items|
  {
    if items == [] then Scan(names, false)
    else if items[0].None? then Scan(names, true)
    else if items[0].value in names then ScanItems(items[1..], names)
    else if |names| + 1 >= MaxResults then Scan(names + [items[0].value], false)
    else ScanItems(items[1..], names + [items[0].value])
  }

  /** One item of the loop over the decoded list. */
  lemma ScanStep(items: seq<Option<string>>, i: nat, names: seq<string>)
    requires i < |items|
    ensures ScanItems(items[i..], names)
            == if items[i].None? then Scan(names, true)
               else if items[i].value in names then ScanItems(items[i + 1..], names)
               else if |names| + 1 >= MaxResults then Scan(names + [items[i].value], false)
               else ScanItems(items[i + 1..], names + [items[i].value])
  {
    assert items[i..][1..] == items[i + 1..];
  }

  predicate Distinct(names: seq<string>) {
    forall i, j :: 0 <= i < j < |names| ==> names[i] != names[j]
  }

  /** The scan extends the names found so far, up to three in all. */
  lemma {:induction false} ScanItemsPrefix(items: seq<Option<string>>, names: seq<string>)
    requires |names| < MaxResults
    ensures var s := ScanItems(items, names);
            |names| <= |s.names| <= MaxResults && s.names[..|names|] == names
    decreases |items|
  {
    if items != [] && items[0].Some? {
      var next := names + [items[0].value];
      if items[0].value in names {
        ScanItemsPrefix(items[1..], names);
      } else if |next| < MaxResults {
        ScanItemsPrefix(items[1..], next);
        var s := ScanItems(items[1..], next);
        assert s.names[..|names|] == s.names[..|next|][..|names|];
      } else {
        assert next[..|names|] == names;
      }
    }
  }

  /** The names that get ids are distinct, and each is read from the list. */
  lemma {:induction false} ScanItemsDistinct(items: seq<Option<string>>, names: seq<string>)
    requires Distinct(names)
    ensures var s := ScanItems(items, names);
            Distinct(s.names) && forall x :: x in s.names ==> x in names || Some(x) in items
    decreases |items|
  {
    if items != [] && items[0].Some? {
      var next := names + [items[0].value];
      assert forall x :: Some(x) in items[1..] ==> Some(x) in items;
      if items[0].value in names {
        ScanItemsDistinct(items[1..], names);
      } else if |next| < MaxResults {
        ScanItemsDistinct(items[1..], next);
      }
    }
  }

  /** Without a failure and with room left, every readable name of the list
      got an id. */
  lemma {:induction false} ScanItemsComplete(items: seq<Option<string>>, names: seq<string>)
    requires |names| < MaxResults
    ensures var s := ScanItems(items, names);
            !s.failed && |s.names| < MaxResults ==> forall x :: Some(x) in items ==> x in s.names
    decreases |items|
  {
    if items != [] && items[0].Some? {
      var s := ScanItems(items, names);
      var next := names + [items[0].value];
      if items[0].value in names {
        ScanItemsComplete(items[1..], names);
        ScanKeepsNames(items[1..], names);
      } else if |next| < MaxResults {
        ScanItemsComplete(items[1..], next);
        ScanKeepsNames(items[1..], next);
      }
      assert forall x :: Some(x) in items ==> x == items[0].value || Some(x) in items[1..];
    }
  }

  /** The scan never drops a name it started with. */
  lemma {:induction false} ScanKeepsNames(items: seq<Option<string>>, names: seq<string>)
    ensures forall x :: x in names ==> x in ScanItems(items, names).names
    decreases |items|
  {
    if items != [] && items[0].Some? {
      var next := names + [items[0].value];
      if items[0].value in names {
        ScanKeepsNames(items[1..], names);
      } else if |next| < MaxResults {
        ScanKeepsNames(items[1..], next);
      }
    }
  }

  /** The map entries a search writes: the i-th suggestion under id
      `FirstSyntheticId + i`. */
  function SyntheticEntries(names: seq<string>): (m: map<int, string>)
    ensures forall j :: j in m <==> FirstSyntheticId <= j < FirstSyntheticId + |names|
    ensures forall j :: j in m ==> m[j] == names[j - FirstSyntheticId]
  {
    if names == [] then map[]
    else
      var n := |names| - 1;
      SyntheticEntries(names[..n])[FirstSyntheticId + n := names[n]]
  }

  /** Writing the next suggestion into the map extends the entries by one. */
  lemma EntriesStep(m: map<int, string>, names: seq<string>, name: string)
    ensures (m + SyntheticEntries(names))[FirstSyntheticId + |names| := name] == m + SyntheticEntries(names + [name])
  {
    assert (names + [name])[..|names|] == names;
  }

  /** The suggestions as listed in the response. */
  function SyntheticListings(names: seq<string>): (ls: seq<Listing>)
    ensures |ls| == |names|
    ensures forall i :: 0 <= i < |names| ==> ls[i] == Synthetic(FirstSyntheticId + i, names[i])
  {
    seq(|names|, i requires 0 <= i < |names| => Synthetic(FirstSyntheticId + i, names[i]))
  }

  /** The purchase of `id`: the new catalogue and the response. */
  function PurchaseOutcome(catalog: seq<Product>, names: map<int, string>, id: int): (seq<Product>, Response)
  {
    var i := FindProduct(catalog, id);
    if i < |catalog| then
      if catalog[i].inStock > 0 then
        var updated := catalog[i := catalog[i].(inStock := catalog[i].inStock - 1)];
        if catalog[i].name != "" then (updated, Response("Successfully purchased: " + catalog[i].name, [], true))
        else (updated, Response("Product not found.", [], false))
      else (catalog, Response("Product out of stock.", [], false))
    else if id >= FirstSyntheticId && id in names && names[id] != "" then
      (catalog, Response("Successfully purchased: " + names[id], [], true))
    else
      (catalog, Response("Product not found.", [], false))
  }

  /** The message of every failed call to the language model; the
      exception text that follows it is not modelled. */
  const GroqFailure: string := "Error reaching Groq service: "

  /** The catalogue matches for a search, at most three, first of each id. */
  function LocalMatches(catalog: seq<Product>, queryStr: string, nounPhrases: seq<string>): seq<Product>
  {
    FirstDistinct(Candidates(catalog, Keywords(queryStr, nounPhrases)), {}, MaxResults)
  }

  /** The model's answer decoded into a list of items, when the bracketed
      span exists and parses. */
  function DecodedAnswer(answer: Option<string>, decode: string -> Option<seq<Option<string>>>): Option<seq<Option<string>>>
  {
    if answer.None? then None
    else
      var span := GreedySpan(answer.value, '[', ']');
      if span.None? then None else decode(span.value)
  }

  /** The search of `queryStr`: the new synthetic-product map and the response. */
  function SearchOutcome(catalog: seq<Product>, names: map<int, string>, queryStr: string, nounPhrases: seq<string>,
                         answer: Option<string>, decode: string -> Option<seq<Option<string>>>): (map<int, string>, Response)
  {
    SearchResult(LocalMatches(catalog, queryStr, nounPhrases), names, queryStr, DecodedAnswer(answer, decode))
  }

  /** The search's outcome from its catalogue matches and the decoded answer. */
  function SearchResult(local: seq<Product>, names: map<int, string>, queryStr: string,
                        decoded: Option<seq<Option<string>>>): (map<int, string>, Response)
  {
    if local != [] then
      (names, Response("Based on your query: '" + queryStr + "', here are some product suggestions:",
                       seq(|local|, i requires 0 <= i < |local| => Local(local[i])), false))
    else if decoded.None? then (names, Response(GroqFailure, [], false))
    else
      var s := ScanItems(decoded.value, []);
      (names + SyntheticEntries(s.names),
       if s.failed then Response(GroqFailure, [], false)
       else Response("Groq suggestions for: '" + queryStr + "'", SyntheticListings(s.names), false))
  }

  /** Index of the first row with this id, or `|catalog|`. */
  function FindProduct(catalog: seq<Product>, id: int): (i: nat)
    ensures i <= |catalog|
    ensures i < |catalog| ==> catalog[i].id == id
    ensures forall j :: 0 <= j < i ==> catalog[j].id != id
  {
    if catalog == [] then 0
    else if catalog[0].id == id then 0
    else 1 + FindProduct(catalog[1..], id)
  }

  /** With unique ids, a product's id finds that product. */
  lemma {:induction false} FindProductUnique(catalog: seq<Product>, i: nat)
    requires UniqueIds(catalog) && i < |catalog|
    ensures FindProduct(catalog, catalog[i].id) == i
  {
    if i > 0 {
      assert UniqueIds(catalog[1..]) by {
        forall a, b | 0 <= a < b < |catalog| - 1 ensures catalog[1..][a].id != catalog[1..][b].id {
          assert catalog[1..][a] == catalog[a + 1] && catalog[1..][b] == catalog[b + 1];
        }
      }
      FindProductUnique(catalog[1..], i - 1);
      assert catalog[0].id != catalog[i].id;
    }
  }

  /** The product table and the in-memory map of synthetic ids to names. */
  class Store {
    var catalog: seq<Product>
    var syntheticProductMap: map<int, string>

    /** Ids are the table's primary key. */
    predicate Valid()
      reads this
    {
      UniqueIds(catalog)
    }

    constructor(products: seq<Product>)
      requires UniqueIds(products)
      ensures catalog == products && syntheticProductMap == map[]
      ensures Valid()
    {
      catalog := products;
      syntheticProductMap := map[];
    }

    /** The synthetic-id loop over the decoded list, writing into the map
        as it goes: the writes made before a failing item stay. */
    method AssignSyntheticIds(items: seq<Option<string>>) returns (names: seq<string>, failed: bool)
      requires Valid()
      modifies this
      ensures Valid()
      ensures Scan(names, failed) == ScanItems(items, [])
      ensures syntheticProductMap == old(syntheticProductMap) + SyntheticEntries(names)
      ensures catalog == old(catalog)
    {
      var seenNames: set<string> := {};
      names := [];
      var syntheticId := FirstSyntheticId;
      var i := 0;
      while i < |items|
        invariant 0 <= i <= |items|
        invariant |names| < MaxResults
        invariant forall x :: x in seenNames <==> x in names
        invariant syntheticId == FirstSyntheticId + |names|
        invariant ScanItems(items[i..], names) == ScanItems(items, [])
        invariant syntheticProductMap == old(syntheticProductMap) + SyntheticEntries(names)
        invariant catalog == old(catalog)
      {
        ScanStep(items, i, names);
        if items[i].None? {
          return names, true;
        }
        var name := items[i].value;
        if name !in seenNames {
          seenNames := seenNames + {name};
          syntheticProductMap := syntheticProductMap[syntheticId := name];
          EntriesStep(old(syntheticProductMap), names, name);
          names := names + [name];
          syntheticId := syntheticId + 1;
          if |names| >= MaxResults {
            return names, false;
          }
        }
        i := i + 1;
      }
      return names, false;
    }

    /** The search action on a stripped, non-blank query. */
    method Search(queryStr: string, nounPhrases: seq<string>, answer: Option<string>,
                  decode: string -> Option<seq<Option<string>>>) returns (resp: Response)
      requires Valid()
      modifies this
      ensures Valid()
      ensures catalog == old(catalog)
      ensures (syntheticProductMap, resp)
              == SearchOutcome(old(catalog), old(syntheticProductMap), queryStr, nounPhrases, answer, decode)
      ensures !resp.purchased
      ensures var local := LocalMatches(old(catalog), queryStr, nounPhrases);
              local != [] ==>
                && resp.message == "Based on your query: '" + queryStr + "', here are some product suggestions:"
                && resp.products == seq(|local|, i requires 0 <= i < |local| => Local(local[i]))
                && syntheticProductMap == old(syntheticProductMap)
      ensures LocalMatches(old(catalog), queryStr, nounPhrases) == [] && DecodedAnswer(answer, decode).None? ==>
                resp == Response(GroqFailure, [], false) && syntheticProductMap == old(syntheticProductMap)
      ensures LocalMatches(old(catalog), queryStr, nounPhrases) == [] && DecodedAnswer(answer, decode).Some? ==>
                var s := ScanItems(DecodedAnswer(answer, decode).value, []);
                && syntheticProductMap == old(syntheticProductMap) + SyntheticEntries(s.names)
                && (s.failed ==> resp == Response(GroqFailure, [], false))
                && (!s.failed ==> resp == Response("Groq suggestions for: '" + queryStr + "'", SyntheticListings(s.names), false))
    {
      var keywords := Keywords(queryStr, nounPhrases);
      var allMatches := CollectCandidates(catalog, keywords);
      var products := Deduplicate(allMatches);
      if products != [] {
        var listings := seq(|products|, i requires 0 <= i < |products| => Local(products[i]));
        return Response("Based on your query: '" + queryStr + "', here are some product suggestions:", listings, false);
      }
      if answer.None? {
        return Response(GroqFailure, [], false);
      }
      var span := GreedySpan(answer.value, '[', ']');
      if span.None? {
        return Response(GroqFailure, [], false);
      }
      var decoded := decode(span.value);
      if decoded.None? {
        return Response(GroqFailure, [], false);
      }
      var names, failed := AssignSyntheticIds(decoded.value);
      if failed {
        return Response(GroqFailure, [], false);
      }
      return Response("Groq suggestions for: '" + queryStr + "'", SyntheticListings(names), false);
    }

    /** The purchase action on a non-zero integer id. */
    method Purchase(id: int) returns (resp: Response)
      requires Valid()
      modifies this
      ensures Valid()
      ensures (catalog, resp) == PurchaseOutcome(old(catalog), old(syntheticProductMap), id)
      ensures syntheticProductMap == old(syntheticProductMap)
      ensures forall k :: 0 <= k < |old(catalog)| && old(catalog)[k].id == id && old(catalog)[k].inStock > 0
                ==> catalog[k].inStock == old(catalog)[k].inStock - 1
    {
      forall k | 0 <= k < |catalog| && catalog[k].id == id ensures FindProduct(catalog, id) == k {
        FindProductUnique(catalog, k);
      }
      var i := FindProduct(catalog, id);
      var productName: Option<string> := None;
      if i < |catalog| {
        productName := Some(catalog[i].name);
        if catalog[i].inStock > 0 {
          catalog := catalog[i := catalog[i].(inStock := catalog[i].inStock - 1)];
        } else {
          return Response("Product out of stock.", [], false);
        }
      } else if id >= FirstSyntheticId && id in syntheticProductMap {
        productName := Some(syntheticProductMap[id]);
      }
      if productName.Some? && productName.value != "" {
        return Response("Successfully purchased: " + productName.value, [], true);
      }
      return Response("Product not found.", [], false);
    }

    /** The endpoint after the access check: validation, then the action. */
    method Handle(req: Request, nounPhrases: seq<string>, answer: Option<string>,
                  decode: string -> Option<seq<Option<string>>>) returns (r: Result<Response, HttpError>)
      requires Valid()
      modifies this
      ensures Valid()
      ensures Validate(req).Some? ==> r == Err(Validate(req).value) && unchanged(this)
      ensures Validate(req).None? && req.action == "purchase" ==>
                && r.Ok? && (catalog, r.value) == PurchaseOutcome(old(catalog), old(syntheticProductMap), req.productId.n)
                && syntheticProductMap == old(syntheticProductMap)
      ensures Validate(req).None? && req.action == "search" ==>
                && r.Ok? && catalog == old(catalog)
                && (syntheticProductMap, r.value)
                   == SearchOutcome(old(catalog), old(syntheticProductMap), Strip(req.query), nounPhrases, answer, decode)
    {
      var err := Validate(req);
      if err.Some? {
        return Err(err.value);
      }
      if req.action == "search" {
        var resp := Search(Strip(req.query), nounPhrases, answer, decode);
        return Ok(resp);
      }
      var resp := Purchase(req.productId.n);
      return Ok(resp);
    }
  }

  // -----------------------------------------------------------------------
  // Properties

  /** A purchase with stock decrements that product's stock by exactly one
      and touches no other row; without stock nothing changes. */
  lemma PurchaseStock(catalog: seq<Product>, names: map<int, string>, id: int)
    ensures var (after, resp) := PurchaseOutcome(catalog, names, id);
            var i := FindProduct(catalog, id);
            && |after| == |catalog|
            && (forall j :: 0 <= j < |catalog| && j != i ==> after[j] == catalog[j])
            && (i < |catalog| && catalog[i].inStock > 0 ==>
                  after[i] == catalog[i].(inStock := catalog[i].inStock - 1) && resp.purchased == (catalog[i].name != ""))
            && (i < |catalog| && catalog[i].inStock <= 0 ==>
                  after == catalog && resp == Response("Product out of stock.", [], false))
            && (resp.purchased ==> i < |catalog| || (id >= FirstSyntheticId && id in names))
  {
  }

  /** Two purchases of a product with one item in stock: the first one
      succeeds, the second is out of stock. */
  lemma LastItemSoldOnce(catalog: seq<Product>, names: map<int, string>, i: nat)
    requires i < |catalog| && catalog[i].inStock == 1 && catalog[i].name != ""
    requires UniqueIds(catalog)
    ensures var (after1, resp1) := PurchaseOutcome(catalog, names, catalog[i].id);
            var (after2, resp2) := PurchaseOutcome(after1, names, catalog[i].id);
            resp1.purchased && !resp2.purchased && resp2.message == "Product out of stock."
            && after2[i].inStock == 0
  {
    var id := catalog[i].id;
    FindProductUnique(catalog, i);
    var after1 := catalog[i := catalog[i].(inStock := 0)];
    assert PurchaseOutcome(catalog, names, id).0 == after1;
    var k := FindProduct(after1, id);
    assert after1[i].id == id;
  }

  /** A synthetic product is bought by name only while its id is in the map. */
  lemma SyntheticPurchase(catalog: seq<Product>, names: map<int, string>, id: int)
    requires forall j :: 0 <= j < |catalog| ==> catalog[j].id != id
    ensures var (after, resp) := PurchaseOutcome(catalog, names, id);
            after == catalog
            && (resp.purchased <==> id >= FirstSyntheticId && id in names && names[id] != "")
            && (resp.purchased ==> resp.message == "Successfully purchased: " + names[id])
  {
    assert FindProduct(catalog, id) == |catalog|;
  }

  /** Every search starts numbering at 10001 again, so the first suggestion
      of a later search replaces the name an earlier one stored there. */
  lemma LaterSearchOverwrites(m: map<int, string>, first: seq<Option<string>>, second: seq<Option<string>>)
    requires |first| > 0 && first[0].Some?
    requires |second| > 0 && second[0].Some?
    ensures var m1 := m + SyntheticEntries(ScanItems(first, []).names);
            var m2 := m1 + SyntheticEntries(ScanItems(second, []).names);
            && FirstSyntheticId in m1 && m1[FirstSyntheticId] == first[0].value
            && FirstSyntheticId in m2 && m2[FirstSyntheticId] == second[0].value
  {
    ScanStartsFresh(first);
    ScanStartsFresh(second);
  }

  /** The first readable name of a list is the first suggestion. */
  lemma ScanStartsFresh(items: seq<Option<string>>)
    requires |items| > 0 && items[0].Some?
    ensures var s := ScanItems(items, []);
            |s.names| > 0 && s.names[0] == items[0].value
  {
    var s := ScanItems(items, []);
    var none: seq<string> := [];
    assert none + [items[0].value] == [items[0].value];
    assert s == ScanItems(items[1..], [items[0].value]);
    ScanItemsPrefix(items[1..], [items[0].value]);
    assert s.names[..1][0] == items[0].value;
  }

  /** A suggestion listed by a search can then be bought under its listed
      id, unless a catalogue row has that id or its name is empty. */
  lemma SuggestionPurchasable(catalog: seq<Product>, names: map<int, string>, queryStr: string,
                              nounPhrases: seq<string>, answer: Option<string>,
                              decode: string -> Option<seq<Option<string>>>, k: nat)
    requires var (_, resp) := SearchOutcome(catalog, names, queryStr, nounPhrases, answer, decode);
             k < |resp.products| && resp.products[k].Synthetic?
    ensures var (names', resp) := SearchOutcome(catalog, names, queryStr, nounPhrases, answer, decode);
            var listed := resp.products[k];
            && listed.id == FirstSyntheticId + k
            && (FindProduct(catalog, listed.id) == |catalog| && listed.name != "" ==>
                  PurchaseOutcome(catalog, names', listed.id)
                  == (catalog, Response("Successfully purchased: " + listed.name, [], true)))
  {
    ListedSuggestion(LocalMatches(catalog, queryStr, nounPhrases), names, queryStr, DecodedAnswer(answer, decode), k);
  }

  /** The listed suggestion `k` is stored in the new map under its id. */
  lemma ListedSuggestion(local: seq<Product>, names: map<int, string>, queryStr: string,
                         decoded: Option<seq<Option<string>>>, k: nat)
    requires var (_, resp) := SearchResult(local, names, queryStr, decoded);
             k < |resp.products| && resp.products[k].Synthetic?
    ensures var (names', resp) := SearchResult(local, names, queryStr, decoded);
            && resp.products[k].id == FirstSyntheticId + k
            && resp.products[k].id in names' && names'[resp.products[k].id] == resp.products[k].name
  {
    var (names', resp) := SearchResult(local, names, queryStr, decoded);
    if local == [] {
      var s := ScanItems(decoded.value, []);
      var id := FirstSyntheticId + k;
      assert resp.products[k] == Synthetic(id, s.names[k]);
      assert id in SyntheticEntries(s.names);
    }
  }

  /** A search lists at most three products. */
  lemma SearchListsAtMostThree(catalog: seq<Product>, names: map<int, string>, queryStr: string,
                               nounPhrases: seq<string>, answer: Option<string>,
                               decode: string -> Option<seq<Option<string>>>)
    ensures |SearchOutcome(catalog, names, queryStr, nounPhrases, answer, decode).1.products| <= MaxResults
  {
    var local := LocalMatches(catalog, queryStr, nounPhrases);
    FirstDistinctBounds(Candidates(catalog, Keywords(queryStr, nounPhrases)), {}, MaxResults);
    if local == [] && DecodedAnswer(answer, decode).Some? {
      ScanItemsPrefix(DecodedAnswer(answer, decode).value, []);
    }
  }
}
