/** The keyword search of the home page (`search`) and the filename match of the image
    upload (`image_search`). */
module ProductSearch {
  import opened Wrappers
  import opened Seqs
  import opened PyText
  import opened Catalog

  /** The fixed whitelist of category keywords. */
  const Keywords: seq<string> := ["saree", "dress", "shirt", "kurti", "jeans", "lehenga", "top", "gown"]

  predicate IsKeyword(w: string) { w in Keywords }

  /** `query.lower().strip()`, then every ASCII punctuation character deleted. */
  function Normalize(query: string): string
  {
    DeletePunctuation(Strip(Lower(query)))
  }

  /** The words of the normalised query that are keywords, in query order. */
  function SearchTerms(query: string): seq<string>
  {
    Filter(Split(Normalize(query)), IsKeyword)
  }

  /** The lower-cased name of `p` contains some term as a substring. */
  predicate MatchesAny(p: Product, terms: seq<string>)
  {
    exists k | k in terms :: Contains(Lower(p.name), k)
  }

  function Matcher(terms: seq<string>): Product -> bool
  {
    (p: Product) => MatchesAny(p, terms)
  }

  /** The products shown for `query`: none when no keyword survives, otherwise every
      product whose lower-cased name contains a surviving keyword, in catalog order. */
  function Search(query: string, catalog: seq<Product>): seq<Product>
  {
    var terms := SearchTerms(query);
    if terms == [] then [] else Filter(catalog, Matcher(terms))
  }

  /** The text handed to `split` holds no punctuation and no upper-case letter. */
  lemma NormalizedIsClean(query: string)
    ensures forall i :: 0 <= i < |Normalize(query)| ==>
      !IsPunctuation(Normalize(query)[i]) && !IsAsciiUpper(Normalize(query)[i])
  {
    var lowered := Lower(query);
    var stripped := Strip(lowered);
    assert forall c :: c in stripped ==> c in lowered by {
      var l := LStrip(lowered);
      assert forall c :: c in RStrip(l) ==> c in l;
      assert forall c :: c in l ==> c in lowered;
    }
    forall i | 0 <= i < |Normalize(query)|
      ensures !IsPunctuation(Normalize(query)[i]) && !IsAsciiUpper(Normalize(query)[i])
    {
      var c := Normalize(query)[i];
      FilterMembership(stripped, NotPunctuation, c);
      var j :| 0 <= j < |lowered| && lowered[j] == c;
    }
  }

  /** Every search term is a keyword taken from the normalised query. */
  lemma SearchTermsAreKeywords(query: string, w: string)
    ensures w in SearchTerms(query) <==> w in Split(Normalize(query)) && w in Keywords
  {
    FilterMembership(Split(Normalize(query)), IsKeyword, w);
  }

  /** A query without a keyword among its words shows nothing: not the whole catalog. */
  lemma NoKeywordNoResults(query: string, catalog: seq<Product>)
    requires forall w :: w in Split(Normalize(query)) ==> w !in Keywords
    ensures SearchTerms(query) == []
    ensures Search(query, catalog) == []
  {
    FilterNonePass(Split(Normalize(query)), IsKeyword);
  }

  /** Every keyword is a single non-empty word. */
  lemma KeywordsAreWords(w: string)
    requires w in Keywords
    ensures w != [] && NoSpace(w)
  {
  }

  /** A keyword standing as a word of the normalised query, between whitespace or at
      either end, becomes a search term. */
  lemma KeywordWordIsTerm(query: string, a: string, w: string, b: string)
    requires Normalize(query) == a + w + b
    requires w in Keywords
    requires a == [] || IsSpace(a[|a| - 1])
    requires b == [] || IsSpace(b[0])
    ensures w in SearchTerms(query)
  {
    KeywordsAreWords(w);
    WordIsSplitOut(a, w, b);
    FilterMembership(Split(Normalize(query)), IsKeyword, w);
  }

  /** A product is shown exactly when it is in the catalog and its lower-cased name
      contains a surviving keyword. */
  lemma SearchMembership(query: string, catalog: seq<Product>, p: Product)
    ensures p in Search(query, catalog) <==>
      p in catalog && exists k :: k in SearchTerms(query) && Contains(Lower(p.name), k)
  {
    var terms := SearchTerms(query);
    if terms != [] {
      FilterMembership(catalog, Matcher(terms), p);
    }
  }

  /** A product is shown as often as the catalog lists it when it matches, and not at all
      otherwise. */
  lemma SearchCounts(query: string, catalog: seq<Product>, p: Product)
    ensures multiset(Search(query, catalog))[p] ==
      if SearchTerms(query) != [] && MatchesAny(p, SearchTerms(query))
      then multiset(catalog)[p] else 0
  {
    var terms := SearchTerms(query);
    if terms != [] {
      FilterCount(catalog, Matcher(terms), p);
    }
  }

  /** The products shown keep their catalog order. */
  lemma SearchPreservesOrder(query: string, catalog: seq<Product>)
    ensures IsSubsequence(Search(query, catalog), catalog)
  {
    var terms := SearchTerms(query);
    if terms != [] {
      FilterIsSubsequence(catalog, Matcher(terms));
    }
  }

  /** The empty query shows nothing. */
  lemma EmptyQueryNoResults(catalog: seq<Product>)
    ensures Search("", catalog) == []
  {
    assert Normalize("") == [];
  }

  /** The query is case-insensitive. */
  lemma SearchIgnoresCase(query: string, catalog: seq<Product>)
    ensures Search(Lower(query), catalog) == Search(query, catalog)
  {
    LowerIdempotent(query);
  }

  /** The `strip` before splitting changes no word: `split` already ignores leading and
      trailing whitespace, and whitespace is not punctuation. */
  lemma StripIsRedundant(query: string)
    ensures Split(Normalize(query)) == Split(DeletePunctuation(Lower(query)))
  {
    var x := Lower(query);
    var y := LStrip(x);
    var z := RStrip(y);
    var lead := x[..|x| - |y|];
    var trail := y[|z|..];
    LStripSplits(x);
    RStripSplits(y);
    forall i | 0 <= i < |lead| ensures NotPunctuation(lead[i]) {
      SpaceIsNotPunctuation(lead[i]);
    }
    forall i | 0 <= i < |trail| ensures NotPunctuation(trail[i]) {
      SpaceIsNotPunctuation(trail[i]);
    }
    FilterAllPass(lead, NotPunctuation);
    FilterAllPass(trail, NotPunctuation);
    FilterAppend(lead, y, NotPunctuation);
    FilterAppend(z, trail, NotPunctuation);
    SplitDropsLeadingSpace(lead, DeletePunctuation(y));
    SplitDropsTrailingSpace(DeletePunctuation(z), trail);
  }

  /** The reply of `image_search`. */
  datatype ImageSearchReply = NoImageUploaded | Matched(products: seq<Product>)

  /** The crude keyword of an upload: its file name without extension, lower-cased. */
  function ImageKeyword(filename: string): string
  {
    Lower(SplitExtRoot(filename))
  }

  function NameContains(keyword: string): Product -> bool
  {
    (p: Product) => Contains(Lower(p.name), keyword)
  }

  /** `image_search`: without an uploaded file the request fails; otherwise every product
      whose lower-cased name contains the file's keyword, in catalog order. */
  function ImageSearch(upload: Option<string>, catalog: seq<Product>): ImageSearchReply
  {
    match upload
    case None => NoImageUploaded
    case Some(filename) => Matched(Filter(catalog, NameContains(ImageKeyword(filename))))
  }

  /** Without a file the reply is the error; with one, a product matches exactly when its
      lower-cased name contains the keyword, and matches keep their catalog order. */
  lemma ImageSearchMatches(upload: Option<string>, catalog: seq<Product>, p: Product)
    ensures upload.None? <==> ImageSearch(upload, catalog) == NoImageUploaded
    ensures upload.Some? ==>
      var ps := ImageSearch(upload, catalog).products;
      && IsSubsequence(ps, catalog)
      && (p in ps <==> p in catalog && Contains(Lower(p.name), ImageKeyword(upload.value)))
  {
    if upload.Some? {
      var f := NameContains(ImageKeyword(upload.value));
      FilterMembership(catalog, f, p);
      FilterIsSubsequence(catalog, f);
    }
  }

  /** With an upload, a product is matched as often as the catalog lists it when its name
      contains the keyword, and not at all otherwise. */
  lemma ImageSearchCounts(filename: string, catalog: seq<Product>, p: Product)
    ensures multiset(ImageSearch(Some(filename), catalog).products)[p] ==
      if Contains(Lower(p.name), ImageKeyword(filename)) then multiset(catalog)[p] else 0
  {
    FilterCount(catalog, NameContains(ImageKeyword(filename)), p);
  }

  /** An upload with an empty file name matches the whole catalog: the empty keyword is
      contained in every name. */
  lemma EmptyFileNameMatchesAll(catalog: seq<Product>)
    ensures ImageSearch(Some(""), catalog) == Matched(catalog)
  {
    assert ImageKeyword("") == "";
    forall i | 0 <= i < |catalog| ensures NameContains("")(catalog[i]) {
      assert IsPrefix("", Lower(catalog[i].name));
    }
    FilterAllPass(catalog, NameContains(""));
  }
}
