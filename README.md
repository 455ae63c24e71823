# IAP backend — a verified model in Dafny

This project models the decision logic of the FastAPI backend of an AI
use-case platform. Users sign up, log in, and reach four use-case
endpoints. Each endpoint sits behind a role and license gate:

- **Sentiment analysis.** Keyword counting against stored labels, with
  truncated percentages. When nothing matches, the answer of a language
  model is thresholded, renormalised and rounded.
- **Product search and purchase.** Catalogue matching, deduplicated and
  capped at three. When nothing matches, language-model suggestions get
  synthetic ids from 10001. A purchase decrements stock.
- **Image classification.** Stored labels are selected by OCR words and
  merged with the items of a vision model into one insertion-ordered
  dictionary. A known brand is forced to "other". There are at most three
  attempts.
- **Translation.** A stored translation is used when one matches. Otherwise
  the text is translated in 800-character chunks. The result is returned as
  JSON or as a downloadable file.

Every external effect is an input or an oracle parameter. That covers the
language models, OCR, image decoding, JSON decoding, file text extraction,
JWT, password hashing, reset-token generation and the clock. The database is
a sequence of rows in the order the query returns them. What remains is
modelled exactly: string predicates, integer and rational arithmetic,
deduplication, bounded loops, and small in-place updates of the user table,
the product catalogue and the synthetic-id map.

Modules, one per file:

- `Wrappers`: `Option`, `Result`, `HttpError`.
- `Text`: Python string operations — `lower`, `strip`, `split`,
  `capitalize`, containment, and the bracket spans of `re.search`.
- `Dicts`: an insertion-ordered Python dict as a sequence of pairs, with
  sums, tallies and first-maximum arg-max.
- `Models`: `backend/db/db/models.py`.
- `Crud`: `backend/db/crud.py`, including the `UserTable` class the routes
  update in place.
- `AuthManager`: `backend/auth/auth_manager.py`.
- `ApiRoutes`: `backend/api/routes.py`.
- `Percentages`: `backend/service/sentiment/analyze_utils.py`.
- `SentimentRoutes`: `backend/service/sentiment/sentiment_routes.py`.
- `ProductSearch`: `backend/service/agentic/agentic_product_search_routes.py`,
  with the `Store` class holding the catalogue and the synthetic-id map.
- `ImageClassification`: `backend/service/image/image_classification_routes.py`.
- `TranslationRoutes`: `backend/service/langauge/translation_routes.py`.

Two behaviours of the source are modelled as written and shown by lemmas.
Neither needs a correction elsewhere in the model.

- The residual correction of `calculate_percentages` can make a percentage
  negative (`Percentages.NegativeResidual`).
- Every product search restarts synthetic ids at 10001, so a later search
  overwrites the names an earlier one stored
  (`ProductSearch.LaterSearchOverwrites`).

## Model

| member | source | states |
|---|---|---|
| Models.RoleValue | backend/db/db/models.py:9-12 | a role's value is one of "Admin", "Editor", "Viewer" |
| Models.LicenseValue | backend/db/db/models.py:14-17 | a license's value is one of "Basic", "Teams", "Enterprise" |
| Crud.FindUser | backend/db/crud.py:6-7 | the position of the first user whose email equals the argument exactly; no earlier user has that email |
| Crud.UserByEmail | backend/db/crud.py:6-7 | none exactly when no stored user has this email (case-sensitive); otherwise a stored user with that email |
| Crud.UserByEmailUnique | backend/db/crud.py:6-7 | under the unique-email constraint, the lookup of a stored user's email returns that very user |
| Crud.NewUser | backend/db/crud.py:9-16 | the new record holds the given email, role and license, the hash of the password and no reset token |
| Crud.UserTable.CreateUser | backend/db/crud.py:9-20 | exactly one record is appended; the others are unchanged |
| Crud.UserTable.Update | backend/api/routes.py:38-39 | assigning a row's attributes and committing replaces that row and nothing else |
| Crud.LanguageTranslations | backend/db/crud.py:25-30 | a row is returned exactly when its languages equal the arguments exactly and its input text contains the query ignoring case |
| Crud.FirstTranslation | backend/db/crud.py:25-30 | the first returned row is the first matching row of the table |
| AuthManager.Expiry | backend/auth/auth_manager.py:18 | expiry is now plus the delta, or plus the configured default minutes when the delta is absent or zero |
| AuthManager.AccessTokenClaims | backend/auth/auth_manager.py:16-20 | the claims are the caller's claims plus `exp`; every other key keeps its value |
| AuthManager.AuthenticateUserSpec | backend/auth/auth_manager.py:23-35 | login succeeds exactly for a stored user with this email whose hash verifies the password, and returns that user |
| AuthManager.GetCurrentUser | backend/auth/auth_manager.py:38-49 | an undecodable token or a missing or null `sub` is 401 "Invalid token"; a decoded token with a non-null `sub` that fails is 401 "User not found"; success exactly when `sub` is a stored email, returning that stored record |
| AuthManager.CheckAccess | backend/auth/auth_manager.py:52-65 | no user is 401; a role outside the policy is 403 "Role not permitted", checked first; then a license outside it is 403 "License not permitted"; the handler runs exactly when both are allowed |
| AuthManager.EndpointPolicies | backend/service/langauge/translation_routes.py:21 | translation admits Editor×Enterprise, sentiment Viewer×Teams, image classification Admin×Teams, product search Admin×Basic, and no other pair |
| AuthManager.AtMostOneEndpoint | backend/service/agentic/agentic_product_search_routes.py:27 | no user passes the gates of two endpoints |
| AuthManager.Authorize | backend/auth/auth_manager.py:46-63 | a token that does not resolve gives its own 401 before any gate; otherwise success exactly when the stored role and license are in the policy, a 403 when not; the user passed on is the resolved stored user |
| AuthManager.StoredUserDecides | backend/auth/auth_manager.py:46-49 | two tokens with the same `sub` get the same decision, whatever role and license claims they carry |
| ApiRoutes.SignupSpec | backend/api/routes.py:13-18 | a taken email is a 400 and the table is unchanged; a new email appends exactly one user, built by `create_user` |
| ApiRoutes.SignupRoute | backend/api/routes.py:13-18 | the table after the request and the response are those of the signup specification |
| ApiRoutes.Login | backend/api/routes.py:21-30 | bad credentials are exactly the 401 cases; a token carries `sub` = the email, the role and license values, `exp` at the default expiry, type "bearer" |
| ApiRoutes.LoginThenCurrentUser | backend/api/routes.py:29 | the token issued at login, once decoded, resolves to the authenticated user |
| ApiRoutes.ForgotPasswordSpec | backend/api/routes.py:32-40 | an unknown email is a 404 with the table unchanged; otherwise that user's reset token becomes the issued token and is returned; no other row changes |
| ApiRoutes.FindUserUpdate | backend/api/routes.py:38-39 | updating a row without changing its email keeps every lookup's result position |
| ApiRoutes.ForgotPasswordRoute | backend/api/routes.py:32-40 | the table after the request and the response are those of the forgot-password specification |
| ApiRoutes.ResetPasswordSpec | backend/api/routes.py:42-50 | a reset succeeds exactly when the user exists and holds this token; it replaces the hash and clears the token; no other row changes; failure is 400 with the table unchanged |
| ApiRoutes.ResetTokenSingleUse | backend/api/routes.py:47-48 | replaying a token after a successful reset fails |
| ApiRoutes.NoResetWithoutForgot | backend/api/routes.py:44-46 | right after signup no reset succeeds, since no token was ever issued |
| ApiRoutes.ForgotThenReset | backend/api/routes.py:37-50 | the token forgot-password issues resets the password, and the new hash is stored |
| ApiRoutes.LatestTokenWins | backend/api/routes.py:37-38 | a second forgot-password request invalidates the first token |
| ApiRoutes.ResetPasswordRoute | backend/api/routes.py:42-50 | the table after the request and the response are those of the reset specification |
| Percentages.RoundHalfEven | backend/service/sentiment/analyze_utils.py:9 | Python `round`: within one half of the value, ties to the even integer |
| Percentages.RoundHalfEvenUnique | backend/service/sentiment/analyze_utils.py:9 | those two properties determine the rounded value |
| Percentages.Shares | backend/service/sentiment/analyze_utils.py:8 | each share is 100·count/total exactly |
| Percentages.CorrectResidual | backend/service/sentiment/analyze_utils.py:9-13 | the values sum to 100; every entry but the first largest share is its rounded share; that entry gets the whole residual |
| Percentages.CalculatePercentages | backend/service/sentiment/analyze_utils.py:4-14 | same keys as the counts; all 0 when the total is 0; otherwise the values sum to 100, with the residual given to the first largest share |
| Percentages.CountKeywords | backend/service/sentiment/analyze_utils.py:24-30 | the keyword loop over one row adds the row's keyword hits to its label's count and to the total |
| Percentages.CountLabelMatches | backend/service/sentiment/analyze_utils.py:19-30 | the nested loops produce the per-label hit tally, and the total equals the sum of the counts |
| Percentages.CountHits | backend/service/sentiment/analyze_utils.py:19-30 | the label loop over the lower-cased text yields the tally of every row's hits and their total |
| Percentages.CountRow | backend/service/sentiment/analyze_utils.py:23-30 | one turn of the label loop takes the counts and total of the first i rows to those of the first i + 1 |
| Percentages.HitsStep | backend/service/sentiment/analyze_utils.py:23-30 | row i adds its keyword hits to its label's count and to the total |
| Percentages.HitCountsSum | backend/service/sentiment/analyze_utils.py:29-30 | the counts add up to the total number of keyword hits |
| Percentages.AnalyzeSentimentWithPercentage | backend/service/sentiment/analyze_utils.py:16-48 | no hit gives "Neutral" with no percentages; otherwise the percentages cover exactly the labels with a positive count and sum to 100, and the summary is the capitalised label with the first largest percentage |
| Percentages.LabelCount | backend/service/sentiment/analyze_utils.py:23-30 | each label's count is the total number of keyword hits of the rows with that label |
| Percentages.PositiveSum | backend/service/sentiment/analyze_utils.py:37 | dropping zero counts keeps the total |
| Percentages.PositiveKeepsAll | backend/service/sentiment/analyze_utils.py:37 | counts that are all positive are all kept, in order |
| Percentages.ThreeWayTie | backend/service/sentiment/analyze_utils.py:10-13 | three equal counts give 34, 33, 33: the residual goes to the first key |
| Percentages.NegativeResidual | backend/service/sentiment/analyze_utils.py:10-13 | 22 labels matched once each round to 5 each, so the first label gets 5 − 10 = −5 |
| Percentages.TrailingCommaAlwaysMatches | backend/service/sentiment/analyze_utils.py:24-27 | a keyword list ending in a comma holds the empty keyword, which is a hit on every text |
| SentimentRoutes.Extension | backend/service/sentiment/sentiment_routes.py:47 | the extension is the text after the last dot |
| SentimentRoutes.ResolveContent | backend/service/sentiment/sentiment_routes.py:30-64 | success exactly when one input is given and, for a file, it is non-empty, a pdf/docx/txt and not blank; each refusal is a 400 with its own message (both, neither, empty file, unsupported type, no text); the result is the stripped content of the input used |
| SentimentRoutes.NonBlankStripped | backend/service/sentiment/sentiment_routes.py:67 | the entries are non-empty and stripped; there are none exactly when every line is blank |
| SentimentRoutes.NonBlankIndices | backend/service/sentiment/sentiment_routes.py:67 | the positions of exactly the non-blank lines, increasing |
| SentimentRoutes.NonBlankStrippedLines | backend/service/sentiment/sentiment_routes.py:67 | the k-th entry is the k-th non-blank line, stripped |
| SentimentRoutes.NonBlankStrippedMembers | backend/service/sentiment/sentiment_routes.py:67 | a string is an entry exactly when it is some non-blank line, stripped |
| SentimentRoutes.FeedbackEntries | backend/service/sentiment/sentiment_routes.py:67 | the entries are the non-blank lines of the content split at newlines, stripped, in order; each is non-empty and holds no newline |
| SentimentRoutes.WordHits | backend/service/sentiment/sentiment_routes.py:78-81 | at most one hit per word, repeats counted; none exactly when no word is a keyword |
| SentimentRoutes.CountWords | backend/service/sentiment/sentiment_routes.py:78-81 | the word loop adds the label's word hits to its count and to the total |
| SentimentRoutes.CountWordMatches | backend/service/sentiment/sentiment_routes.py:72-81 | the nested loops produce the per-label word tally, and the total equals the sum of the counts |
| SentimentRoutes.Truncated | backend/service/sentiment/sentiment_routes.py:83-86 | only labels with a positive count; each value is the floor of 100·count/total |
| SentimentRoutes.TruncatedAtMost100 | backend/service/sentiment/sentiment_routes.py:83-86 | the truncated percentages sum to at most 100 |
| SentimentRoutes.TruncatedEqualShares | backend/service/sentiment/sentiment_routes.py:83-86 | n labels with one hit each keep their keys and get 100 / n each, rounded down |
| SentimentRoutes.TruncatedBelow100 | backend/service/sentiment/sentiment_routes.py:83-86 | three single hits give 33 each, a sum of 99 |
| SentimentRoutes.DbResultSpec | backend/service/sentiment/sentiment_routes.py:82-90 | the database tier answers exactly when some word matched; it covers the positive labels, sums to at most 100, and its summary is the capitalised label with the first largest percentage |
| SentimentRoutes.Reported | backend/service/sentiment/sentiment_routes.py:114-116 | the values under Positive, Negative, Neutral, 0 when missing |
| SentimentRoutes.Thresholded | backend/service/sentiment/sentiment_routes.py:117-118 | values below 20 become 0 |
| SentimentRoutes.Kept | backend/service/sentiment/sentiment_routes.py:119-121 | the thresholded values when some value reaches 20, otherwise 100 on the first largest reported value and 0 elsewhere; non-negative with a positive sum |
| SentimentRoutes.Normalised | backend/service/sentiment/sentiment_routes.py:122-126 | each value is its share of 100 of the total |
| SentimentRoutes.ExternalPercentagesSpec | backend/service/sentiment/sentiment_routes.py:114-131 | keyed Positive, Negative, Neutral, summing to 100; when some value is kept, the values are the kept values renormalised to shares of 100, each share but the first largest rounded half to even and the first largest taking the residual, so a value under 20 ends at 0; when none is kept the first largest reported value gets 100 |
| SentimentRoutes.KeptShares | backend/service/sentiment/sentiment_routes.py:117-131 | with a kept value, the shares are 100 times each thresholded value over their total, and all but the first largest are rounded |
| SentimentRoutes.AllBelowThreshold | backend/service/sentiment/sentiment_routes.py:119-121 | when no value reaches 20, the first largest gets 100 and the others 0 |
| SentimentRoutes.ZeroShareKeepsZero | backend/service/sentiment/sentiment_routes.py:117-131 | when some value reaches 20, every value under 20 ends at 0 after renormalising, rounding and the residual |
| SentimentRoutes.ExternalResultSpec | backend/service/sentiment/sentiment_routes.py:110-140 | a 500 exactly when the call fails, there is no `{...}` span, or it does not decode; otherwise the percentages sum to 100 and the summary is the key with the first largest one |
| SentimentRoutes.DbTierFirst | backend/service/sentiment/sentiment_routes.py:82-90 | a database match answers the entry whatever the language model would say |
| SentimentRoutes.AnalyzeAllSpec | backend/service/sentiment/sentiment_routes.py:69-142 | on success one result per entry, in order; otherwise the first failing entry's error |
| SentimentRoutes.AnalyzeAllErrPrefix | backend/service/sentiment/sentiment_routes.py:139-140 | a failure on an earlier entry is the failure of the whole request |
| SentimentRoutes.AnalyzeOneEntry | backend/service/sentiment/sentiment_routes.py:71-140 | the loop body computes the database tier, then the external tier, as specified |
| SentimentRoutes.AnalyzeEntries | backend/service/sentiment/sentiment_routes.py:69-142 | the loop over the entries computes the per-entry results in order, or the first failure |
| SentimentRoutes.SentimentAnalysis | backend/service/sentiment/sentiment_routes.py:22-142 | validation errors are returned as is; otherwise the results of the feedback entries |
| ProductSearch.Validate | backend/service/agentic/agentic_product_search_routes.py:34-41 | a 422 exactly when the query is blank, the action is not search or purchase, or a purchase lacks a non-zero integer id |
| ProductSearch.Keywords | backend/service/agentic/agentic_product_search_routes.py:21-24 | the noun phrases, or the stripped query when there are none; never empty |
| ProductSearch.Candidates | backend/service/agentic/agentic_product_search_routes.py:54-58 | a product is a candidate exactly when its name or category contains some keyword, ignoring case |
| ProductSearch.CollectCandidates | backend/service/agentic/agentic_product_search_routes.py:54-58 | the keyword loop collects the candidates keyword by keyword |
| ProductSearch.FirstDistinctBounds | backend/service/agentic/agentic_product_search_routes.py:61-74 | at most three products, each a candidate |
| ProductSearch.FirstDistinctUnique | backend/service/agentic/agentic_product_search_routes.py:61-74 | no id is listed twice |
| ProductSearch.FirstDistinctComplete | backend/service/agentic/agentic_product_search_routes.py:61-74 | with fewer than three listed, every candidate's id is listed |
| ProductSearch.FirstDistinctFirstSeen | backend/service/agentic/agentic_product_search_routes.py:61-74 | each listed product is the first candidate with its id, and they are listed in the order of those first positions |
| ProductSearch.FirstDistinctNoSkip | backend/service/agentic/agentic_product_search_routes.py:61-74 | a candidate whose id is new and which comes before a listed product is listed before it |
| ProductSearch.Deduplicate | backend/service/agentic/agentic_product_search_routes.py:61-74 | the loop keeps the first product of each id, in order, stopping at three |
| ProductSearch.ScanItemsPrefix | backend/service/agentic/agentic_product_search_routes.py:97-108 | at most three suggestions get ids, extending those already named |
| ProductSearch.ScanItemsDistinct | backend/service/agentic/agentic_product_search_routes.py:97-108 | the named suggestions are distinct and each comes from the decoded list |
| ProductSearch.ScanItemsComplete | backend/service/agentic/agentic_product_search_routes.py:97-108 | without a failure and with room left, every readable name gets an id |
| ProductSearch.SyntheticEntries | backend/service/agentic/agentic_product_search_routes.py:99-105 | the i-th suggestion is stored under id 10001 + i, and only those ids |
| ProductSearch.SyntheticListings | backend/service/agentic/agentic_product_search_routes.py:103-111 | the i-th listed suggestion has id 10001 + i |
| ProductSearch.FindProduct | backend/service/agentic/agentic_product_search_routes.py:126 | the first catalogue row with this id, or none |
| ProductSearch.Store.AssignSyntheticIds | backend/service/agentic/agentic_product_search_routes.py:97-108 | the map gains exactly the scanned suggestions' entries, including those written before a failing item |
| ProductSearch.Store.Search | backend/service/agentic/agentic_product_search_routes.py:45-114 | the new map and the response are those of the search specification; nothing is ever marked purchased; catalogue matches are listed with "Based on your query: '<q>', here are some product suggestions:" and the map untouched; a missing, unbracketed or undecodable answer gives "Error reaching Groq service: " with no products and the map as it was; a decoded list stores its suggestions under ids from 10001 and lists them with "Groq suggestions for: '<q>'", or, when an item has no readable name, keeps the entries written so far and answers with the Groq error and no products |
| ProductSearch.SuggestionPurchasable | backend/service/agentic/agentic_product_search_routes.py:99-111 | the k-th listed suggestion has id 10001 + k and, when no catalogue row has that id and its name is non-empty, a purchase of that id right after the search succeeds with its name |
| ProductSearch.ListedSuggestion | backend/service/agentic/agentic_product_search_routes.py:99-111 | every listed suggestion is stored in the new map under its listed id with its listed name |
| ProductSearch.SearchListsAtMostThree | backend/service/agentic/agentic_product_search_routes.py:61-111 | a search lists at most three products, from the catalogue or from the model |
| ProductSearch.Store.Purchase | backend/service/agentic/agentic_product_search_routes.py:116-142 | the catalogue and the response are those of the purchase specification; the map is unchanged; ids stay unique, so the row holding the id, if in stock, loses exactly one item |
| ProductSearch.FindProductUnique | backend/service/agentic/agentic_product_search_routes.py:126 | with unique ids, looking up a row's id finds that row |
| ProductSearch.Store.Handle | backend/service/agentic/agentic_product_search_routes.py:28-142 | validation errors change nothing; a purchase follows the purchase specification and leaves the synthetic-product map unchanged; a search of the stripped query keeps the catalogue and follows the search specification for the new map and the response; catalogue ids stay unique |
| ProductSearch.PurchaseStock | backend/service/agentic/agentic_product_search_routes.py:124-134 | with stock, exactly that row's stock drops by one; without stock, "Product out of stock." and nothing changes |
| ProductSearch.LastItemSoldOnce | backend/service/agentic/agentic_product_search_routes.py:130-134 | the last item in stock sells once; the second purchase is out of stock |
| ProductSearch.SyntheticPurchase | backend/service/agentic/agentic_product_search_routes.py:135-142 | an id outside the catalogue is bought exactly when it is at least 10001 and mapped to a name; nothing changes |
| ProductSearch.LaterSearchOverwrites | backend/service/agentic/agentic_product_search_routes.py:99-104 | a later search overwrites the name stored under 10001 by an earlier one |
| ImageClassification.StripBytes | backend/service/image/image_classification_routes.py:48 | `bytes.strip()`: a slice of the input with only ASCII whitespace outside it and none at either end; empty exactly when every byte is ASCII whitespace |
| ImageClassification.UploadErrorSpec | backend/service/image/image_classification_routes.py:32-55 | an upload passes exactly when present, with an allowed normalised type, more than 7 bytes, not `b"string"` once stripped, and decodable; every refusal is a 400 |
| ImageClassification.ShortPayloadRefused | backend/service/image/image_classification_routes.py:48-49 | 7 bytes or fewer are refused whatever the type |
| ImageClassification.OcrWordsSpec | backend/service/image/image_classification_routes.py:59-67 | only OCR words longer than two characters are used, and none when the OCR text is empty |
| ImageClassification.MatchingRowsSpec | backend/service/image/image_classification_routes.py:67-69 | a row is selected exactly when its OCR text contains a word, ignoring case; no words select no rows |
| ImageClassification.RowEntries | backend/service/image/image_classification_routes.py:71-74 | each stored row is keyed by its trimmed lower-cased name and keeps its own name and category |
| ImageClassification.MergeRows | backend/service/image/image_classification_routes.py:71-74 | the row loop inserts each key once, the first row winning |
| ImageClassification.ReadItemSpec | backend/service/image/image_classification_routes.py:137-146 | a non-object or non-string field raises; an item is skipped exactly when a normalised field is "string"; every other item is kept with its trimmed, lower-cased name and category, a known brand getting "other" |
| ImageClassification.ItemEntriesSound | backend/service/image/image_classification_routes.py:137-149 | every entry comes from a kept item, keyed by its own product name, with no "string" field |
| ImageClassification.ItemEntriesComplete | backend/service/image/image_classification_routes.py:137-149 | without a raising item, every kept item has an entry |
| ImageClassification.MergeItems | backend/service/image/image_classification_routes.py:137-149 | the item loop inserts the entries up to the first raising item and reports whether one raised |
| ImageClassification.RunAttempt | backend/service/image/image_classification_routes.py:92-155 | one attempt, with its failures: no reply, empty content, no `[...]` span, not a list, a raising item, or an empty dictionary |
| ImageClassification.ImageClassification | backend/service/image/image_classification_routes.py:26-163 | the route validates the upload, merges the stored labels, then retries the model |
| ImageClassification.AttemptExtends | backend/service/image/image_classification_routes.py:148-149 | an attempt never changes or removes a key already present |
| ImageClassification.RetryExtends | backend/service/image/image_classification_routes.py:91-163 | across attempts the dictionary only grows; written keys keep their values |
| ImageClassification.StoredLabelWins | backend/service/image/image_classification_routes.py:71-74 | a matching stored label is returned as stored, even when the model names the same product or a brand |
| ImageClassification.RetryKeepsValue | backend/service/image/image_classification_routes.py:151-152 | a key present before the attempts is returned with its value |
| ImageClassification.RetryAllFail | backend/service/image/image_classification_routes.py:157-163 | when no attempt succeeds, the loop does not succeed |
| ImageClassification.NoReplyFails | backend/service/image/image_classification_routes.py:77 | with no model reply the request is a 500, even when stored labels matched |
| ImageClassification.FirstAttemptWrites | backend/service/image/image_classification_routes.py:137-152 | a reply listing a kept item and then a non-object writes the item and fails the attempt |
| ImageClassification.FailedAttemptWritesStay | backend/service/image/image_classification_routes.py:91-163 | an item written by an attempt that then raised stays: after an empty second reply the request returns exactly that item |
| ImageClassification.BrandItemRead | backend/service/image/image_classification_routes.py:145-146 | any name that normalises to a known brand is filed under "other", under that normalised name, whatever category the model gave |
| ImageClassification.AtMostThreeAttempts | backend/service/image/image_classification_routes.py:21 | only the first three attempts matter |
| ImageClassification.ThreeRepliesDecide | backend/service/image/image_classification_routes.py:91 | model replies after the third never change the result |
| TranslationRoutes.ResolveText | backend/service/langauge/translation_routes.py:31-88 | both or neither input is a 400; an empty file or an unreadable extension is a 400; blank text is a 400; otherwise the stripped text, non-empty |
| TranslationRoutes.CachedTranslationSpec | backend/service/langauge/translation_routes.py:89-95 | the hit is the first row with the lower-cased languages whose input text contains the text, ignoring case; none when no row matches |
| TranslationRoutes.ChunksConcat | backend/service/langauge/translation_routes.py:130-134 | the chunks concatenate back to the text |
| TranslationRoutes.ChunksSizes | backend/service/langauge/translation_routes.py:130-134 | ceil(len/800) chunks of 1 to 800 characters, all but the last exactly 800 |
| TranslationRoutes.ChunksUnique | backend/service/langauge/translation_routes.py:130-134 | any slicing with those properties is the chunking |
| TranslationRoutes.SplitText | backend/service/langauge/translation_routes.py:130-134 | the loop builds the chunking |
| TranslationRoutes.TranslateAllSpec | backend/service/langauge/translation_routes.py:136-141 | one translation per chunk, in order, "" when there is none; otherwise the first exception |
| TranslationRoutes.ChunkTexts | backend/service/langauge/translation_routes.py:136-140 | one text per chunk |
| TranslationRoutes.FallbackSplitsBack | backend/service/langauge/translation_routes.py:141 | when no chunk translation holds a newline, splitting the output on newlines gives the chunk translations back |
| TranslationRoutes.TranslateChunks | backend/service/langauge/translation_routes.py:136-143 | the loop joins the chunk translations with newlines, or stops at the first exception |
| TranslationRoutes.CachedResponse | backend/service/langauge/translation_routes.py:96-118 | "docx", "txt" and "txt-download" give files with the translation; anything else gives JSON |
| TranslationRoutes.FallbackResponse | backend/service/langauge/translation_routes.py:145-177 | the model answer is formatted exactly like a stored one |
| TranslationRoutes.LanguageTranslation | backend/service/langauge/translation_routes.py:22-177 | the route computes the whole endpoint: validation, stored translation, fallback and format |
| TranslationRoutes.StoredSkipsModel | backend/service/langauge/translation_routes.py:94-119 | a stored translation is answered without the model |
| TranslationRoutes.FallbackTranslatesChunks | backend/service/langauge/translation_routes.py:119-141 | without a stored translation, the answer is the chunk translations joined by newlines |
| TranslationRoutes.ModelFailureIs500 | backend/service/langauge/translation_routes.py:123-143 | a failure loading the model or translating any chunk is a 500 "Translation failed" |
| Text.Strip | backend/service/sentiment/sentiment_routes.py:30 | `str.strip`: the middle of the string between blank ends, empty exactly when blank |
| Text.StripIdempotent | backend/service/langauge/translation_routes.py:92 | stripping stripped text changes nothing |
| Text.Split | backend/service/sentiment/sentiment_routes.py:67 | `str.split(sep)`: separator-free pieces that join back to the string |
| Text.SplitJoin | backend/service/langauge/translation_routes.py:141 | splitting a join of separator-free pieces gives the pieces |
| Text.Words | backend/service/sentiment/sentiment_routes.py:73 | `str.split()`: non-empty whitespace-free words that make up the non-space characters, none when blank |
| Text.WordsOfWeave | backend/service/sentiment/sentiment_routes.py:73 | words separated by non-empty whitespace and padded by whitespace split back into exactly those words: the maximal runs |
| Text.Contains | backend/service/sentiment/analyze_utils.py:27 | `in` on strings: the pattern occurs at some position |
| Text.Capitalize | backend/service/sentiment/analyze_utils.py:48 | `str.capitalize`: the first character upper-cased, the rest lower-cased |
| Text.GreedySpanSpec | backend/service/sentiment/sentiment_routes.py:111 | a greedy bracket span runs from the first opening to the last closing bracket |
| Text.LazySpanSpec | backend/service/image/image_classification_routes.py:115 | a lazy bracket span runs from the first opening to the next closing bracket |
| Dicts.ArgMaxReal | backend/service/sentiment/analyze_utils.py:12 | `max(d, key=d.get)`: a largest value, and the first such |
| Dicts.ArgMaxInt | backend/service/sentiment/analyze_utils.py:46 | `max(d, key=d.get)` on integers: a largest value, and the first such |
| Dicts.InsertAllLookup | backend/service/image/image_classification_routes.py:73-74 | after inserting entries only where the key is absent, a key keeps its old value or gets its first entry's |
| Dicts.TallySum | backend/service/sentiment/analyze_utils.py:29-30 | adding each hit to its label adds the total of the hits to the sum |

## Left out

- Language models, OCR and decoding are inputs or oracle parameters: the
  Groq calls, the HuggingFace pipeline, `json.loads`, easyocr, image decoding
  (`cv2.imdecode`) and TextBlob noun phrases. The same goes for file text
  extraction (PyPDF2, PyMuPDF, python-docx) and UTF-8 decoding. The models
  keep only the bracket-span extraction of the answers.
- JWT encoding, signing and decoding are left out; a token is its claims, and
  the decoder's signature and expiry checks are the oracle `decode`. Password
  hashing and verification are oracles too. `create_reset_token` is the
  parameter `issued`, `datetime.utcnow` the parameter `now` (seconds), and
  `ACCESS_TOKEN_EXPIRE_MINUTES` the parameter `defaultMinutes`.
- SQL `ILIKE` is modelled as case-insensitive containment; `%` and `_` in
  user text, which are wildcards in the real query, are taken literally.
  Query results are the table rows in a given order.
- Lower-casing and upper-casing are ASCII only; Unicode case mapping is not
  modelled. Whitespace for `str.strip` and `str.split()` is Python's Unicode
  `str.isspace` set, and `bytes.strip` uses ASCII whitespace, as in Python.
- Python floats are exact reals in the model. `round` is round-half-to-even
  on exact values.
- SentimentRoutes.Truncated: `int((count / total) * 100)` divides in floating
  point first, so it can land one below the exact floor that is modelled.
  The only property claimed for this tier is a sum of at most 100, which
  holds either way.
- `time.sleep` between attempts, temporary files, `FileResponse` paths,
  `print` logging, `backend/core/logger.py` and `backend/main.py` are I/O or
  wiring.
- Two branches of the product route cannot be reached, and the model leaves
  them out: the empty-query answer after validation and the
  missing-product-id answer of a purchase.
- Error details that embed `str(e)` are kept as their fixed prefix only:
  "Error reaching Groq service", "Sentiment analysis failed",
  "Translation failed". The individual messages of a failed image attempt
  are not kept either, since every failure leads to a retry.
- ProductSearch.Store.Search: a suggestion is modelled by its name only. The
  other fields the language model returns (category, price, stock) are
  passed through unchecked by the source and are left out.
- ProductSearch.Store.Search: a suggestion's `name` is a string in the model.
  In the source it may be any JSON value (a number, null, a boolean); it is
  stored as it is, a purchase then tests it by truthiness, and `1` and
  `true` count as the same name when duplicates are skipped. Names that are
  not strings are not modelled.
- ProductSearch.Store.Search: the Groq client is constructed before the
  `try`, so a failure there escapes as an unhandled 500; the model has no
  such failure, only failed answers inside the `try`.
- ImageClassification.ImageClassification: the Groq client is constructed
  before the retry loop's `try`, so a failure there escapes as an unhandled
  500 whatever the stored labels; the model has no such failure.
- ProductSearch.Validate: `isinstance(product_id, int)` also accepts
  Python's `True`; booleans are not a separate case in the model.
- `analyze_utils.py` reads the `sentiment` and `keyword` attributes of a
  label row, but the table defines the columns `label` and `keywords`. The
  model reads the table's columns.
- ImageClassification.ReadItem: any element of the decoded list that is not
  a JSON object raises, and so does a field that is not a string. Which
  Python exception is raised is not modelled.
- AuthManager.GetCurrentUser: a `sub` claim that is not a string matches no
  stored email.
- A file upload without a name (`file.filename` is None) is not modelled.
- The users' autoincrement `id` and `get_sentiment_labels` (all rows) are
  left out; the label rows are an input.
- The `max_length` argument of the translation pipeline is part of the
  oracle.
- Concurrent requests are not modelled; the source has no locking.
