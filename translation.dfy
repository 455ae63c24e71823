/** backend/service/langauge/translation_routes.py: the language-translation
    endpoint. It takes exactly one of a text or a file, looks the stripped
    text up among stored translations, and otherwise translates it with a
    machine-translation model, 800 characters at a time, joining the
    chunk translations with newlines. The answer is a .docx file, a .txt
    file or JSON, as the request asks.

    The file readers (UTF-8 decoding, PyMuPDF with OCR of embedded images,
    python-docx) are not part of this model: the text they extract is the
    input `extracted`. The model pipeline is an oracle: `loadError` is the
    message of an exception raised while loading it, and `translate` gives
    each chunk's reply. */
module TranslationRoutes {
  import opened Wrappers
  import opened Text
  import opened Models
  import opened Crud

  /** An uploaded file: its name and whether its byte content is empty. */
  datatype Upload = Upload(filename: string, isEmpty: bool)

  /** What the pipeline gives for one chunk: an exception, a reply with
      no `translation_text` (or no reply at all), or a translation. */
  datatype ChunkReply = Raised(message: string) | NoText | Translated(text: string)

  /** The response: a file to download, or JSON `{"translated_text": ...}`. */
  datatype Response = FileResponse(filename: string, mediaType: string, content: string) | Json(translatedText: string)

  const MaxChars: nat := 800

  const BothOrNeither := HttpError(400, "Please provide either text input or a file, but not both.")
  const EmptyFile := HttpError(400, "Uploaded file is empty.")
  const Unsupported := HttpError(400, "Unsupported file format. Use TXT, PDF, or DOCX.")
  const BlankText := HttpError(400, "No text found in the document or input.")

  // -----------------------------------------------------------------------
  // Input validation

  /** The file name, lower-cased, names a reader. */
  predicate Readable(filename: string) {
    var name := Lower(filename);
    EndsWith(name, ".txt") || EndsWith(name, ".pdf") || EndsWith(name, ".docx")
  }

  /** The checks before any lookup, and the stripped text they leave.
      A text counts only when it is not blank; a file counts whenever one
      was sent. */
  function ResolveText(textInput: Option<string>, file: Option<Upload>, extracted: string): (r: Result<string, HttpError>)
    ensures var hasText := textInput.Some? && !IsBlank(textInput.value);
            hasText == file.Some? ==> r == Err(BothOrNeither)
    ensures file.Some? && !(textInput.Some? && !IsBlank(textInput.value))
            ==> (file.value.isEmpty ==> r == Err(EmptyFile))
                && (!file.value.isEmpty && !Readable(file.value.filename) ==> r == Err(Unsupported))
                && (!file.value.isEmpty && Readable(file.value.filename) && IsBlank(extracted) ==> r == Err(BlankText))
    ensures r.Ok? <==> (textInput.Some? && !IsBlank(textInput.value)) != file.Some?
                       && (file.Some? ==> !file.value.isEmpty && Readable(file.value.filename) && !IsBlank(extracted))
    ensures r.Ok? ==> r.value == Strip(if file.Some? then extracted else textInput.value)
    ensures r.Ok? ==> r.value != [] && Strip(r.value) == r.value
  {
    var hasText := textInput.Some? && Strip(textInput.value) != [];
    var hasFile := file.Some?;
    if hasText == hasFile then Err(BothOrNeither)
    else if hasFile && file.value.isEmpty then Err(EmptyFile)
    else if hasFile && !Readable(file.value.filename) then Err(Unsupported)
    else
      var source := if hasFile then extracted else textInput.value;
      var text := Strip(source);
      if text == [] then Err(BlankText)
      else
        StripIdempotent(source);
        Ok(text)
  }

  // -----------------------------------------------------------------------
  // Stored translations

  /** The stored-translation query: the stored languages must equal the
      lower-cased request languages, and the stored input must contain the
      stripped text, ignoring case; `.first()` takes the first such row. */
  function CachedTranslation(rows: seq<LanguageTranslation>, inputLang: string, outputLang: string, text: string)
    : Option<LanguageTranslation>
  {
    var hits := LanguageTranslations(rows, Lower(inputLang), Lower(outputLang), Strip(text));
    if hits == [] then None else Some(hits[0])
  }

  /** The hit is the first matching row, and there is none only when no
      row matches. */
  lemma CachedTranslationSpec(rows: seq<LanguageTranslation>, inputLang: string, outputLang: string, text: string)
    ensures var hit := CachedTranslation(rows, inputLang, outputLang, text);
            && (hit.None? <==> forall row :: row in rows ==> !TranslationMatches(row, Lower(inputLang), Lower(outputLang), Strip(text)))
            && (hit.Some? ==> (exists i :: 0 <= i < |rows| && rows[i] == hit.value
                                  && TranslationMatches(rows[i], Lower(inputLang), Lower(outputLang), Strip(text))
                                  && forall j :: 0 <= j < i ==> !TranslationMatches(rows[j], Lower(inputLang), Lower(outputLang), Strip(text))))
  {
    var hits := LanguageTranslations(rows, Lower(inputLang), Lower(outputLang), Strip(text));
    if hits != [] {
      assert hits[0] in hits;
      FirstTranslation(rows, Lower(inputLang), Lower(outputLang), Strip(text));
    }
  }

  // -----------------------------------------------------------------------
  // Chunking

  /** `split_text`: consecutive slices of 800 characters, the last one
      shorter; none for the empty text. */
  function Chunks(text: string): seq<string>
    decreases |text|
  {
    if text == [] then []
    else if |text| <= MaxChars then [text]
    else [text[..MaxChars]] + Chunks(text[MaxChars..])
  }

  /** The chunks put back together are the text. */
  lemma {:induction false} ChunksConcat(text: string)
    ensures Concat(Chunks(text)) == text
    decreases |text|
  {
    if |text| > MaxChars {
      ChunksConcat(text[MaxChars..]);
      var c := Chunks(text);
      assert c[1..] == Chunks(text[MaxChars..]);
      assert text == text[..MaxChars] + text[MaxChars..];
    } else if text != [] {
      assert Chunks(text)[1..] == [];
    }
  }

  /** Every chunk holds 1 to 800 characters, every chunk but the last
      exactly 800, and there are ceil(len / 800) of them. */
  lemma {:induction false} ChunksSizes(text: string)
    ensures var c := Chunks(text);
            && |c| == (|text| + MaxChars - 1) / MaxChars
            && (forall i :: 0 <= i < |c| ==> 0 < |c[i]| <= MaxChars)
            && (forall i :: 0 <= i < |c| - 1 ==> |c[i]| == MaxChars)
    decreases |text|
  {
    if |text| > MaxChars {
      ChunksSizes(text[MaxChars..]);
      var c := Chunks(text);
      assert c[1..] == Chunks(text[MaxChars..]);
      assert forall i :: 1 <= i < |c| ==> c[i] == Chunks(text[MaxChars..])[i - 1];
    }
  }

  /** Chunking is determined by those properties: any slicing into pieces
      of 1 to 800 characters, all but the last exactly 800, that puts the
      text back together is the one `split_text` makes. */
  lemma {:induction false} ChunksUnique(text: string, pieces: seq<string>)
    requires Concat(pieces) == text
    requires forall i :: 0 <= i < |pieces| ==> 0 < |pieces[i]| <= MaxChars
    requires forall i :: 0 <= i < |pieces| - 1 ==> |pieces[i]| == MaxChars
    ensures pieces == Chunks(text)
    decreases |pieces|
  {
    if pieces != [] {
      var rest := Concat(pieces[1..]);
      assert text == pieces[0] + rest;
      if |pieces| == 1 {
        assert pieces[1..] == [];
        assert text == pieces[0];
        assert pieces == [text];
      } else {
        assert |rest| > 0 by { ConcatNonEmpty(pieces[1..]); }
        assert |text| > MaxChars;
        assert text[..MaxChars] == pieces[0];
        assert text[MaxChars..] == rest;
        ChunksUnique(rest, pieces[1..]);
        assert pieces == [pieces[0]] + pieces[1..];
      }
    }
  }

  lemma ConcatNonEmpty(pieces: seq<string>)
    requires pieces != [] && pieces[0] != []
    ensures Concat(pieces) != []
  {
  }

  /** The text from position `i` on; empty once `i` has passed the end. */
  function From(text: string, i: nat): string {
    if i >= |text| then [] else text[i..]
  }

  /** One turn of the loop: the slice at `i`, then the chunks after it. */
  lemma ChunksStep(text: string, i: nat)
    requires i < |text|
    ensures Chunks(From(text, i)) == [text[i..if i + MaxChars < |text| then i + MaxChars else |text|]] + Chunks(From(text, i + MaxChars))
  {
    var t := text[i..];
    if |t| > MaxChars {
      assert t[..MaxChars] == text[i..i + MaxChars];
      assert t[MaxChars..] == text[i + MaxChars..];
    } else {
      assert text[i..|text|] == t;
    }
  }

  /** The loop of `split_text`, over `range(0, len(text), 800)`. */
  method SplitText(text: string) returns (chunks: seq<string>)
    ensures chunks == Chunks(text)
  {
    chunks := [];
    var i := 0;
    while i < |text|
      invariant chunks + Chunks(From(text, i)) == Chunks(text)
      decreases |text| - i
    {
      var end := if i + MaxChars < |text| then i + MaxChars else |text|;
      ChunksStep(text, i);
      chunks := chunks + [text[i..end]];
      i := i + MaxChars;
    }
    assert From(text, i) == [];
  }

  // -----------------------------------------------------------------------
  // Translating the chunks

  /** The text a reply contributes: nothing when it has no translation. */
  function ReplyText(reply: ChunkReply): string
    requires !reply.Raised?
  {
    if reply.Translated? then reply.text else ""
  }

  /** The per-chunk translations in order, or the message of the first
      exception. */
  function TranslateAll(chunks: seq<string>, translate: string -> ChunkReply): Result<seq<string>, string>
    decreases |chunks|
  {
    if chunks == [] then Ok([])
    else
      var n := |chunks| - 1;
      var first := TranslateAll(chunks[..n], translate);
      if first.Err? then first
      else
        match translate(chunks[n])
        case Raised(m) => Err(m)
        case reply => Ok(first.value + [ReplyText(reply)])
  }

  /** One translation per chunk, in order, when no chunk raises; otherwise
      the message of the first chunk that does. */
  lemma {:induction false} TranslateAllSpec(chunks: seq<string>, translate: string -> ChunkReply)
    ensures var r := TranslateAll(chunks, translate);
            && (r.Ok? <==> forall i :: 0 <= i < |chunks| ==> !translate(chunks[i]).Raised?)
            && (r.Ok? ==> |r.value| == |chunks| && forall i :: 0 <= i < |chunks| ==> r.value[i] == ReplyText(translate(chunks[i])))
            && (r.Err? ==> exists i :: 0 <= i < |chunks| && translate(chunks[i]) == Raised(r.error)
                                       && forall j :: 0 <= j < i ==> !translate(chunks[j]).Raised?)
    decreases |chunks|
  {
    if chunks != [] {
      var n := |chunks| - 1;
      TranslateAllSpec(chunks[..n], translate);
      assert forall i :: 0 <= i < n ==> chunks[..n][i] == chunks[i];
    }
  }

  lemma TranslateAllStep(chunks: seq<string>, k: nat, translate: string -> ChunkReply)
    requires k < |chunks|
    ensures TranslateAll(chunks[..k + 1], translate)
            == if TranslateAll(chunks[..k], translate).Err? then TranslateAll(chunks[..k], translate)
               else if translate(chunks[k]).Raised? then Err(translate(chunks[k]).message)
               else Ok(TranslateAll(chunks[..k], translate).value + [ReplyText(translate(chunks[k]))])
  {
    assert chunks[..k + 1][..k] == chunks[..k];
  }

  /** The model's part of the fallback: the chunk translations joined by
      newlines, or the message of the exception that stopped it. */
  function Fallback(text: string, loadError: Option<string>, translate: string -> ChunkReply): Result<string, string>
  {
    if loadError.Some? then Err(loadError.value)
    else
      var translated := TranslateAll(Chunks(text), translate);
      if translated.Err? then Err(translated.error) else Ok(Join(translated.value, "\n"))
  }

  /** The translations of the chunks, one per chunk. */
  function ChunkTexts(chunks: seq<string>, translate: string -> ChunkReply): (ts: seq<string>)
    requires forall c :: c in chunks ==> !translate(c).Raised?
    ensures |ts| == |chunks|
  {
    seq(|chunks|, i requires 0 <= i < |chunks| => ReplyText(translate(chunks[i])))
  }

  /** Round trip: when no chunk translation holds a newline, splitting the
      fallback's answer on newlines gives back one translation per chunk,
      in order. */
  lemma FallbackSplitsBack(text: string, translate: string -> ChunkReply)
    requires text != []
    requires forall c :: c in Chunks(text) ==> !translate(c).Raised? && '\n' !in ReplyText(translate(c))
    ensures Fallback(text, None, translate).Ok?
    ensures Split(Fallback(text, None, translate).value, '\n') == ChunkTexts(Chunks(text), translate)
  {
    var chunks := Chunks(text);
    TranslateAllSpec(chunks, translate);
    ChunksSizes(text);
    var ts := ChunkTexts(chunks, translate);
    assert TranslateAll(chunks, translate).value == ts;
    assert forall i :: 0 <= i < |ts| ==> '\n' !in ts[i] by {
      forall i | 0 <= i < |ts| ensures '\n' !in ts[i] {
        assert chunks[i] in chunks;
      }
    }
    SplitJoin(ts, '\n');
  }

  /** The loop over the chunks, inside the `try`. */
  method TranslateChunks(chunks: seq<string>, translate: string -> ChunkReply) returns (r: Result<string, string>)
    ensures r == if TranslateAll(chunks, translate).Err? then Err(TranslateAll(chunks, translate).error)
                 else Ok(Join(TranslateAll(chunks, translate).value, "\n"))
  {
    var translated: seq<string> := [];
    for k := 0 to |chunks|
      invariant TranslateAll(chunks[..k], translate) == Ok(translated)
    {
      TranslateAllStep(chunks, k, translate);
      var reply := translate(chunks[k]);
      if reply.Raised? {
        TranslateAllErrPrefix(chunks, k + 1, translate);
        return Err(reply.message);
      }
      translated := translated + [ReplyText(reply)];
    }
    assert chunks[..|chunks|] == chunks;
    return Ok(Join(translated, "\n"));
  }

  /** An exception in a prefix is the exception of the whole. */
  lemma {:induction false} TranslateAllErrPrefix(chunks: seq<string>, k: nat, translate: string -> ChunkReply)
    requires k <= |chunks|
    requires TranslateAll(chunks[..k], translate).Err?
    ensures TranslateAll(chunks, translate) == TranslateAll(chunks[..k], translate)
    decreases |chunks|
  {
    if k < |chunks| {
      var n := |chunks| - 1;
      assert chunks[..n][..k] == chunks[..k];
      TranslateAllErrPrefix(chunks[..n], k, translate);
    } else {
      assert chunks[..k] == chunks;
    }
  }

  // -----------------------------------------------------------------------
  // Responses

  const DocxType := "application/vnd.openxmlformats-officedocument.wordprocessingml.document"
  const TextType := "text/plain; charset=utf-8"

  /** The answer for a stored translation: "docx" gives a Word file,
      "txt" and "txt-download" a text file, anything else (or nothing) JSON.
      Each carries the translation unchanged. */
  function CachedResponse(translated: string, downloadFiletype: Option<string>): (r: Response)
    ensures r.FileResponse? <==> downloadFiletype in {Some("docx"), Some("txt"), Some("txt-download")}
    ensures r.FileResponse? ==> r.content == translated
                                && (r.filename == "translated.docx" <==> downloadFiletype == Some("docx"))
                                && (r.filename == "translated.docx" ==> r.mediaType == DocxType)
                                && (r.filename != "translated.docx" ==> r.filename == "translated.txt" && r.mediaType == TextType)
    ensures r.Json? ==> r.translatedText == translated
  {
    if downloadFiletype == Some("docx") then FileResponse("translated.docx", DocxType, translated)
    else if downloadFiletype == Some("txt") || downloadFiletype == Some("txt-download") then
      FileResponse("translated.txt", TextType, translated)
    else Json(translated)
  }

  /** The answer for a model translation, with its separate "txt" and
      "txt-download" branches: the same as for a stored one. */
  function FallbackResponse(translated: string, downloadFiletype: Option<string>): (r: Response)
    ensures r == CachedResponse(translated, downloadFiletype)
  {
    if downloadFiletype == Some("docx") then FileResponse("translated.docx", DocxType, translated)
    else if downloadFiletype == Some("txt") then FileResponse("translated.txt", TextType, translated)
    else if downloadFiletype == Some("txt-download") then FileResponse("translated.txt", TextType, translated)
    else Json(translated)
  }

  // -----------------------------------------------------------------------
  // The endpoint

  function Translate(inputLang: string, outputLang: string, textInput: Option<string>, file: Option<Upload>,
                     extracted: string, rows: seq<LanguageTranslation>, loadError: Option<string>,
                     translate: string -> ChunkReply, downloadFiletype: Option<string>): Result<Response, HttpError>
  {
    var resolved := ResolveText(textInput, file, extracted);
    if resolved.Err? then Err(resolved.error)
    else
      var hit := CachedTranslation(rows, inputLang, outputLang, resolved.value);
      if hit.Some? then Ok(CachedResponse(hit.value.outputText, downloadFiletype))
      else
        var out := Fallback(resolved.value, loadError, translate);
        if out.Err? then Err(HttpError(500, "Translation failed: " + out.error))
        else Ok(FallbackResponse(out.value, downloadFiletype))
  }

  /** `language_translation` after the access check. */
  method LanguageTranslation(inputLang: string, outputLang: string, textInput: Option<string>, file: Option<Upload>,
                             extracted: string, rows: seq<LanguageTranslation>, loadError: Option<string>,
                             translate: string -> ChunkReply, downloadFiletype: Option<string>)
    returns (r: Result<Response, HttpError>)
    ensures r == Translate(inputLang, outputLang, textInput, file, extracted, rows, loadError, translate, downloadFiletype)
  {
    var resolved := ResolveText(textInput, file, extracted);
    if resolved.Err? {
      return Err(resolved.error);
    }
    var text := resolved.value;
    var hit := CachedTranslation(rows, inputLang, outputLang, text);
    if hit.Some? {
      return Ok(CachedResponse(hit.value.outputText, downloadFiletype));
    }
    if loadError.Some? {
      return Err(HttpError(500, "Translation failed: " + loadError.value));
    }
    var chunks := SplitText(text);
    var translated := TranslateChunks(chunks, translate);
    if translated.Err? {
      return Err(HttpError(500, "Translation failed: " + translated.error));
    }
    return Ok(FallbackResponse(translated.value, downloadFiletype));
  }

  // -----------------------------------------------------------------------
  // Properties of the endpoint

  /** A stored translation is answered without the model: the result does
      not depend on the pipeline at all. */
  lemma StoredSkipsModel(inputLang: string, outputLang: string, textInput: Option<string>, file: Option<Upload>,
                         extracted: string, rows: seq<LanguageTranslation>, downloadFiletype: Option<string>,
                         e1: Option<string>, t1: string -> ChunkReply, e2: Option<string>, t2: string -> ChunkReply)
    requires ResolveText(textInput, file, extracted).Ok?
    requires CachedTranslation(rows, inputLang, outputLang, ResolveText(textInput, file, extracted).value).Some?
    ensures Translate(inputLang, outputLang, textInput, file, extracted, rows, e1, t1, downloadFiletype)
            == Translate(inputLang, outputLang, textInput, file, extracted, rows, e2, t2, downloadFiletype)
            == Ok(CachedResponse(CachedTranslation(rows, inputLang, outputLang, ResolveText(textInput, file, extracted).value).value.outputText,
                                 downloadFiletype))
  {
  }

  /** Without a stored translation, the model translates each chunk of
      the text; the answer carries the chunk translations joined by
      newlines, one per chunk, in order. */
  lemma FallbackTranslatesChunks(inputLang: string, outputLang: string, textInput: Option<string>, file: Option<Upload>,
                                 extracted: string, rows: seq<LanguageTranslation>, translate: string -> ChunkReply,
                                 downloadFiletype: Option<string>)
    requires ResolveText(textInput, file, extracted).Ok?
    requires CachedTranslation(rows, inputLang, outputLang, ResolveText(textInput, file, extracted).value).None?
    requires forall c :: c in Chunks(ResolveText(textInput, file, extracted).value) ==> !translate(c).Raised?
    ensures var text := ResolveText(textInput, file, extracted).value;
            var chunks := Chunks(text);
            Translate(inputLang, outputLang, textInput, file, extracted, rows, None, translate, downloadFiletype)
            == Ok(CachedResponse(Join(ChunkTexts(chunks, translate), "\n"), downloadFiletype))
  {
    var text := ResolveText(textInput, file, extracted).value;
    var chunks := Chunks(text);
    TranslateAllSpec(chunks, translate);
    assert TranslateAll(chunks, translate).value == ChunkTexts(chunks, translate);
  }

  /** Any exception while loading the model or translating a chunk turns
      the request into a 500 carrying the exception's message. */
  lemma ModelFailureIs500(inputLang: string, outputLang: string, textInput: Option<string>, file: Option<Upload>,
                          extracted: string, rows: seq<LanguageTranslation>, loadError: Option<string>,
                          translate: string -> ChunkReply, downloadFiletype: Option<string>)
    requires ResolveText(textInput, file, extracted).Ok?
    requires CachedTranslation(rows, inputLang, outputLang, ResolveText(textInput, file, extracted).value).None?
    requires loadError.Some? || exists c :: c in Chunks(ResolveText(textInput, file, extracted).value) && translate(c).Raised?
    ensures var r := Translate(inputLang, outputLang, textInput, file, extracted, rows, loadError, translate, downloadFiletype);
            r.Err? && r.error.status == 500 && IsPrefix("Translation failed: ", r.error.detail)
  {
    var chunks := Chunks(ResolveText(textInput, file, extracted).value);
    TranslateAllSpec(chunks, translate);
    var r := Translate(inputLang, outputLang, textInput, file, extracted, rows, loadError, translate, downloadFiletype);
    var m :| r == Err(HttpError(500, "Translation failed: " + m));
    assert ("Translation failed: " + m)[..|"Translation failed: "|] == "Translation failed: ";
  }
}
