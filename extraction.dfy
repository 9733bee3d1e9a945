/** The detail-page extraction of `extraire_medicament`: from a fetched and
    parsed page of medicament.ma to a five-field medicine record, or to the
    "not found" answer. */
module Extraction {
  import opened Strings

  datatype Option<T> = None | Some(value: T)

  /** What the HTML parser yields for one page: the raw response text, the
      stripped text of the first `h1` (if any), and the stripped texts of
      the `p` elements in document order. */
  datatype Page = Page(rawText: string, heading: Option<string>, paragraphs: seq<string>)

  /** The outcome of the HTTP GET of the lookup URL. Every failure (a status
      other than 200, a timeout, a connection error, any other exception)
      is carried as its error message. */
  datatype Fetch = Fetched(page: Page) | FetchFailed(message: string)

  /** The answer of `extraire_medicament`. */
  datatype Outcome =
    | Medicine(codeCip: string, commercialName: string, dci: string, dosage: string, form: string)
    | NotFound
    | Unavailable(message: string)

  const LookupPrefix := "https://medicament.ma/?choice=barcode&s="
  const NoResultMarker := "Aucun médicament trouvé"
  const CompositionLabel := "Composition"
  const DosageLabel := "Dosage"

  /** The barcode lookup URL for a code. */
  function LookupUrl(code: string): (url: string)
    ensures |url| == |LookupPrefix| + |code|
    ensures url[..|LookupPrefix|] == LookupPrefix && url[|LookupPrefix|..] == code
  {
    LookupPrefix + code
  }

  /** A page that is not a medicine page: the site's "no medicine found"
      text occurs in it, or it has no `h1`. */
  predicate IsNotFoundPage(p: Page)
  {
    Contains(p.rawText, NoResultMarker) || p.heading.None?
  }

  /** `text.replace(keyword, "").replace(":", "").strip()`: the keyword
      occurrences and every colon are deleted, then whitespace is cut off
      the two ends only; whitespace inside is kept as it is. */
  function CleanLabelled(text: string, keyword: string): (r: string)
    requires |keyword| > 0
    ensures r == Strip(Without(ReplaceAll(text, keyword, []), ':'))
    ensures ':' !in r
    ensures IsStripped(r)
    ensures forall c :: c in r ==> c in text
  {
    var noLabel := ReplaceAll(text, keyword, []);
    var noColon := ReplaceAll(noLabel, ":", []);
    ReplaceCharDeletes(noLabel, ':');
    StripShape(noColon);
    assert forall c :: c in noLabel ==> c in text by {
      forall c | c in noLabel ensures c in text {
        ReplaceChars(text, keyword, [], c);
      }
    }
    Strip(noColon)
  }

  /** A paragraph written as the label, then spaces and colons, then a
      value: cleaning it gives back exactly the value, inner whitespace
      included, as long as the value has no colon, no copy of the label and
      no whitespace at its ends. */
  lemma CleanLabelledParagraph(keyword: string, sep: string, x: string)
    requires |keyword| > 0 && !IsSpace(keyword[0]) && keyword[0] != ':'
    requires forall k :: 0 <= k < |sep| ==> sep[k] == ':' || IsSpace(sep[k])
    requires !Contains(x, keyword) && ':' !in x && IsStripped(x)
    ensures CleanLabelled(keyword + sep + x, keyword) == x
  {
    var rest := sep + x;
    assert keyword <= keyword + rest && (keyword + rest)[|keyword|..] == rest;
    forall i | 0 <= i < |sep|
      ensures !(keyword <= sep[i..] + x)
    {
      assert (sep[i..] + x)[0] == sep[i];
    }
    ReplaceUnmatchedHead(sep, x, keyword, []);
    ReplaceAbsent(x, keyword, []);
    assert keyword + sep + x == keyword + rest;
    assert ReplaceAll(keyword + sep + x, keyword, []) == sep + x;
    WithoutConcat(sep, x, ':');
    WithoutAbsent(x, ':');
    var w := Without(sep, ':');
    forall k | 0 <= k < |w| ensures IsSpace(w[k]) {
      assert w[k] in sep;
    }
    StripLeadingSpace(w, x);
  }

  /** A page whose one paragraph reads "Composition : x" has the DCI `x`,
      inner whitespace included. */
  lemma DciOfTypicalParagraph(x: string)
    requires !Contains(x, CompositionLabel) && ':' !in x && IsStripped(x)
    ensures DciOf([CompositionLabel + " : " + x]) == x
  {
    var text := CompositionLabel + " : " + x;
    assert CompositionLabel <= text;
    CleanLabelledParagraph(CompositionLabel, " : ", x);
    DciIsLastComposition([text], 0);
  }

  /** A paragraph the loop takes the DCI from. */
  predicate IsCompositionParagraph(text: string)
  {
    Contains(text, CompositionLabel)
  }

  /** A paragraph the loop takes the dosage from: the `elif` only sees
      paragraphs without "Composition". */
  predicate IsDosageParagraph(text: string)
  {
    !Contains(text, CompositionLabel) && Contains(text, DosageLabel)
  }

  /** The position of the last paragraph that `matches`, if there is one. */
  function LastIndexWhere(ps: seq<string>, matches: string -> bool): (r: Option<nat>)
    ensures r.Some? ==> r.value < |ps| && matches(ps[r.value])
    ensures r.Some? ==> forall j :: r.value < j < |ps| ==> !matches(ps[j])
    ensures r.None? ==> forall j :: 0 <= j < |ps| ==> !matches(ps[j])
  {
    if ps == [] then None
    else if matches(ps[|ps| - 1]) then Some(|ps| - 1)
    else LastIndexWhere(ps[..|ps| - 1], matches)
  }

  /** The cleaned text of the last paragraph that `matches`, or "" if none does. */
  function LastLabelled(ps: seq<string>, matches: string -> bool, keyword: string): (r: string)
    requires |keyword| > 0
  {
    match LastIndexWhere(ps, matches)
    case None => ""
    case Some(k) => CleanLabelled(ps[k], keyword)
  }

  /** The DCI the paragraph loop ends with. */
  function DciOf(ps: seq<string>): (dci: string)
  {
    LastLabelled(ps, IsCompositionParagraph, CompositionLabel)
  }

  /** The dosage the paragraph loop ends with. */
  function DosageOf(ps: seq<string>): (dosage: string)
  {
    LastLabelled(ps, IsDosageParagraph, DosageLabel)
  }

  /** The pharmaceutical form read off the commercial name: the stripped
      text after its last comma, or "" when it has no comma. */
  function FormOf(name: string): (form: string)
  {
    if Contains(name, ",") then Strip(LastPiece(name, ',')) else ""
  }

  /** What `extraire_medicament` answers for a page it has parsed. */
  function ExtractPage(p: Page, code: string): (r: Outcome)
  {
    if IsNotFoundPage(p) then NotFound
    else
      var name := p.heading.value;
      Medicine(code, name, DciOf(p.paragraphs), DosageOf(p.paragraphs), FormOf(name))
  }

  /** What `extraire_medicament(code)` answers, given what fetching its URL yields. */
  function Lookup(code: string, fetch: string -> Fetch): (r: Outcome)
  {
    match fetch(LookupUrl(code))
    case FetchFailed(message) => Unavailable(message)
    case Fetched(p) => ExtractPage(p, code)
  }

  /** The paragraph loop: every paragraph with "Composition" overwrites the
      DCI; every other paragraph with "Dosage" overwrites the dosage. */
  method ScanParagraphs(ps: seq<string>) returns (dci: string, dosage: string)
    ensures dci == DciOf(ps) && dosage == DosageOf(ps)
  {
    dci, dosage := "", "";
    for i := 0 to |ps|
      invariant dci == DciOf(ps[..i])
      invariant dosage == DosageOf(ps[..i])
    {
      var text := ps[i];
      ParagraphStep(ps[..i], text);
      assert ps[..i + 1] == ps[..i] + [text];
      if Contains(text, CompositionLabel) {
        dci := CleanLabelled(text, CompositionLabel);
      } else if Contains(text, DosageLabel) {
        dosage := CleanLabelled(text, DosageLabel);
      }
    }
    assert ps[..|ps|] == ps;
  }

  /** The body of `extraire_medicament` after parsing. */
  method ExtractMedicine(p: Page, code: string) returns (r: Outcome)
    ensures r == ExtractPage(p, code)
  {
    if Contains(p.rawText, NoResultMarker) || p.heading.None? {
      return NotFound;
    }
    var name := p.heading.value;
    var dci, dosage := ScanParagraphs(p.paragraphs);
    var form := "";
    if Contains(name, ",") {
      form := Strip(LastPiece(name, ','));
    }
    r := Medicine(code, name, dci, dosage, form);
  }

  /** One more paragraph: the DCI is overwritten exactly when it contains
      "Composition"; the dosage exactly when it contains "Dosage" and not
      "Composition". */
  lemma ParagraphStep(ps: seq<string>, text: string)
    ensures DciOf(ps + [text]) ==
      if IsCompositionParagraph(text) then CleanLabelled(text, CompositionLabel) else DciOf(ps)
    ensures DosageOf(ps + [text]) ==
      if IsDosageParagraph(text) then CleanLabelled(text, DosageLabel) else DosageOf(ps)
  {
  }

  /** The DCI comes from the last paragraph containing "Composition". */
  lemma DciIsLastComposition(ps: seq<string>, k: nat)
    requires k < |ps| && IsCompositionParagraph(ps[k])
    requires forall j :: k < j < |ps| ==> !IsCompositionParagraph(ps[j])
    ensures DciOf(ps) == CleanLabelled(ps[k], CompositionLabel)
  {
  }

  /** Without a paragraph containing "Composition" the DCI stays "". */
  lemma DciEmptyWithoutComposition(ps: seq<string>)
    requires forall j :: 0 <= j < |ps| ==> !IsCompositionParagraph(ps[j])
    ensures DciOf(ps) == ""
  {
  }

  /** The dosage comes from the last paragraph containing "Dosage" but not
      "Composition"; a paragraph with both never sets it. */
  lemma DosageIsLastDosageOnly(ps: seq<string>, k: nat)
    requires k < |ps| && IsDosageParagraph(ps[k])
    requires forall j :: k < j < |ps| ==> !IsDosageParagraph(ps[j])
    ensures DosageOf(ps) == CleanLabelled(ps[k], DosageLabel)
  {
  }

  /** Without a paragraph holding "Dosage" and not "Composition" the dosage stays "". */
  lemma DosageEmptyWithoutDosage(ps: seq<string>)
    requires forall j :: 0 <= j < |ps| ==> !IsDosageParagraph(ps[j])
    ensures DosageOf(ps) == ""
  {
  }

  /** A paragraph that names both labels sets the DCI and leaves the dosage alone. */
  lemma BothLabelsSetOnlyDci(ps: seq<string>, text: string)
    requires Contains(text, CompositionLabel) && Contains(text, DosageLabel)
    ensures DciOf(ps + [text]) == CleanLabelled(text, CompositionLabel)
    ensures DosageOf(ps + [text]) == DosageOf(ps)
  {
  }

  /** The form is "" for a name without a comma; otherwise it is the
      stripped text after the last comma `k` of the name. */
  lemma FormAfterLastComma(name: string) returns (k: int)
    ensures ',' !in name ==> k == -1 && FormOf(name) == ""
    ensures ',' in name ==> 0 <= k < |name| && name[k] == ','
    ensures ',' in name ==> ',' !in name[k + 1..] && FormOf(name) == Strip(name[k + 1..])
  {
    ContainsChar(name, ',');
    LastPieceIsTail(name, ',');
    if ',' in name {
      var t := LastPiece(name, ',');
      k := |name| - |t| - 1;
      assert name[k + 1..] == t;
    } else {
      k := -1;
    }
  }

  /** The form never holds a comma and has no whitespace at either end. */
  lemma FormShape(name: string)
    ensures ',' !in FormOf(name) && IsStripped(FormOf(name))
  {
    if Contains(name, ",") {
      LastPieceIsTail(name, ',');
      StripShape(LastPiece(name, ','));
    }
  }

  /** Whatever comes before the last comma, the form is the stripped text
      after it, whatever that text starts with. */
  lemma FormOfTail(head: string, tail: string)
    requires ',' !in tail
    ensures FormOf(head + [','] + tail) == Strip(tail)
  {
    var name := head + [','] + tail;
    var k := FormAfterLastComma(name);
    var m := |head|;
    assert name[m] == ',';
    assert name[m + 1..] == tail;
    assert k == m;
  }

  /** No rejection rule for a candidate that starts with a digit: a decimal
      comma in the name cuts the form in the middle of the number. */
  lemma FormKeepsDigitLeading(head: string, tail: string)
    requires head == "Solution injectable en stylo de 1" && tail == "5 ML"
    ensures FormOf(head + "," + tail) == tail
  {
    FormOfTail(head, tail);
    StripStripped(tail);
  }

  /** A page is rejected as not found exactly when it holds the no-result
      text or has no `h1`; otherwise the answer is a record. */
  lemma NotFoundExactly(p: Page, code: string)
    ensures ExtractPage(p, code) == NotFound <==> Contains(p.rawText, NoResultMarker) || p.heading.None?
    ensures ExtractPage(p, code).Medicine? <==> !IsNotFoundPage(p)
  {
  }

  /** Every record holds the code it was given unchanged, the `h1` text as its
      name, and DCI and dosage values free of colons and of whitespace at
      either end; its form holds no comma. */
  lemma RecordFields(p: Page, code: string)
    requires ExtractPage(p, code).Medicine?
    ensures ExtractPage(p, code).codeCip == code
    ensures p.heading == Some(ExtractPage(p, code).commercialName)
    ensures ':' !in ExtractPage(p, code).dci && IsStripped(ExtractPage(p, code).dci)
    ensures ':' !in ExtractPage(p, code).dosage && IsStripped(ExtractPage(p, code).dosage)
    ensures ',' !in ExtractPage(p, code).form && IsStripped(ExtractPage(p, code).form)
  {
    FormShape(p.heading.value);
  }

  /** A lookup answers with a record only when the barcode URL of the code
      was fetched and is a medicine page, and that record carries the code
      looked up; it answers "not found" only for a fetched page that is not
      a medicine page, and reports a fetch failure with its message. */
  lemma LookupFetchesCodeUrl(code: string, fetch: string -> Fetch)
    ensures Lookup(code, fetch).Medicine? <==>
      fetch(LookupPrefix + code).Fetched? && !IsNotFoundPage(fetch(LookupPrefix + code).page)
    ensures Lookup(code, fetch).Medicine? ==> Lookup(code, fetch).codeCip == code
    ensures Lookup(code, fetch) == NotFound <==>
      fetch(LookupPrefix + code).Fetched? && IsNotFoundPage(fetch(LookupPrefix + code).page)
    ensures fetch(LookupPrefix + code).FetchFailed? ==>
      Lookup(code, fetch) == Unavailable(fetch(LookupPrefix + code).message)
  {
  }
}
