/**
 * The product catalog held by the client: the public page's category and search filter,
 * the admin table's search, the product lookup used by the edit button, and the cover
 * image shown on a product card.
 */
module Catalog {
  import opened Options
  import opened Seqs
  import opened Strings

  /** One row of the product sheet, every field as the text the page works with. */
  datatype Product = Product(
    id: string,
    name: string,
    category: string,
    price: string,
    shopeeUrl: string,
    imageUrl: string)  // comma-separated image URLs, the first being the cover

  /** The category selector's "all categories" entry. */
  const AllCategories: string := "ทั้งหมด"

  const PlaceholderImage: string := "https://placehold.co/400x250/cccccc/333333?text=No+Image"
  const PlaceholderThumb: string := "https://placehold.co/50x50/cccccc/333333?text=NoImg"

  /** A selected category narrows the list unless it is empty or the "all" entry. */
  predicate FiltersCategory(category: string)
  {
    category != "" && category != AllCategories
  }

  /** The public search: the lower-cased term occurs in the lower-cased name or id. */
  predicate PublicMatch(p: Product, term: string)
  {
    var t := Lower(term);
    Includes(Lower(p.name), t) || Includes(Lower(p.id), t)
  }

  /** The admin search: the lower-cased term occurs in the lower-cased name, id or category. */
  predicate AdminMatch(p: Product, term: string)
  {
    var t := Lower(term);
    Includes(Lower(p.name), t) || Includes(Lower(p.id), t) || Includes(Lower(p.category), t)
  }

  /** The products the public page lists for a term and category. */
  predicate PublicSelected(p: Product, term: string, category: string)
  {
    (FiltersCategory(category) ==> p.category == category) && (term != "" ==> PublicMatch(p, term))
  }

  /** What `Store.filterAndSearch` puts in `filteredProducts`: the category filter first,
      then the search, each applied only when its input is non-empty. Every copy of a selected
      product is kept and no copy of another one. */
  function PublicView(all: seq<Product>, term: string, category: string): (r: seq<Product>)
    ensures !FiltersCategory(category) && term == "" ==> r == all
    ensures forall i :: 0 <= i < |r| ==> r[i] in all && PublicSelected(r[i], term, category)
    ensures forall i :: 0 <= i < |all| && PublicSelected(all[i], term, category) ==> all[i] in r
    ensures forall p :: multiset(r)[p] == if PublicSelected(p, term, category) then multiset(all)[p] else 0
  {
    var inCategory := (p: Product) => p.category == category;
    var matches := (p: Product) => PublicMatch(p, term);
    var byCategory := if FiltersCategory(category) then Filter(all, inCategory) else all;
    var r := if term != "" then Filter(byCategory, matches) else byCategory;
    assert forall p :: multiset(r)[p] == if PublicSelected(p, term, category) then multiset(all)[p] else 0 by {
      forall p: Product
        ensures multiset(r)[p] == if PublicSelected(p, term, category) then multiset(all)[p] else 0
      {
        FilterMultiplicity(all, inCategory, p);
        FilterMultiplicity(byCategory, matches, p);
      }
    }
    r
  }

  /** The products the admin table lists for a term. */
  predicate AdminSelected(p: Product, term: string)
  {
    term != "" ==> AdminMatch(p, term)
  }

  /** The rows of the admin table for a search term: every copy of a matching product and no
      copy of another one. */
  function AdminView(all: seq<Product>, term: string): (r: seq<Product>)
    ensures term == "" ==> r == all
    ensures forall i :: 0 <= i < |r| ==> r[i] in all && AdminSelected(r[i], term)
    ensures forall i :: 0 <= i < |all| && AdminSelected(all[i], term) ==> all[i] in r
    ensures forall p :: multiset(r)[p] == if AdminSelected(p, term) then multiset(all)[p] else 0
  {
    var matches := (p: Product) => AdminMatch(p, term);
    var r := if term != "" then Filter(all, matches) else all;
    assert forall p :: multiset(r)[p] == if AdminSelected(p, term) then multiset(all)[p] else 0 by {
      forall p: Product ensures multiset(r)[p] == if AdminSelected(p, term) then multiset(all)[p] else 0 {
        FilterMultiplicity(all, matches, p);
      }
    }
    r
  }

  /** The public list keeps the catalog's order: it is a subsequence of it. */
  lemma PublicViewOrdered(all: seq<Product>, term: string, category: string)
    ensures IsSubsequence(PublicView(all, term, category), all)
  {
    var byCategory := if FiltersCategory(category) then Filter(all, (p: Product) => p.category == category) else all;
    assert IsSubsequence(byCategory, all) by {
      if !FiltersCategory(category) {
        SubsequenceRefl(all);
      }
    }
    if term != "" {
      SubsequenceTrans(Filter(byCategory, (p: Product) => PublicMatch(p, term)), byCategory, all);
    }
  }

  /** The admin table keeps the catalog's order. */
  lemma AdminViewOrdered(all: seq<Product>, term: string)
    ensures IsSubsequence(AdminView(all, term), all)
  {
    if term == "" {
      SubsequenceRefl(all);
    }
  }

  /** Every sequence is a subsequence of itself. */
  lemma {:induction false} SubsequenceRefl<T>(s: seq<T>)
    ensures IsSubsequence(s, s)
  {
    if s != [] {
      SubsequenceRefl(s[1..]);
    }
  }

  /** An empty term matches every product, so the search guard changes nothing. */
  lemma EmptyTermMatchesAll(p: Product)
    ensures PublicMatch(p, "") && AdminMatch(p, "")
  {
    IncludesEmpty(Lower(p.name));
  }

  /** Category and search filters commute: the public list is the searched catalog,
      narrowed to the category afterwards. */
  lemma FiltersCommute(all: seq<Product>, term: string, category: string)
    requires FiltersCategory(category)
    ensures PublicView(all, term, category)
      == Filter(PublicView(all, term, AllCategories), (p: Product) => p.category == category)
  {
    var inCategory := (p: Product) => p.category == category;
    var matches := (p: Product) => PublicMatch(p, term);
    FilterCommute(all, inCategory, matches);
    FilterExt(Filter(all, matches), inCategory, (p: Product) => p.category == category);
    FilterExt(Filter(all, inCategory), matches, (p: Product) => PublicMatch(p, term));
    FilterExt(all, matches, (p: Product) => PublicMatch(p, term));
  }

  /** Whatever the public page shows for a term, the admin table also shows, in the same order. */
  lemma PublicWithinAdmin(all: seq<Product>, term: string, category: string)
    ensures IsSubsequence(PublicView(all, term, category), AdminView(all, term))
  {
    PublicViewOrdered(all, term, category);
    if term != "" {
      SubsequenceOfFilter(PublicView(all, term, category), all, (p: Product) => AdminMatch(p, term));
    }
  }

  /** The public search ignores the category field, the admin search does not: a product that
      matches the term only by its category is listed by the admin table and not by the public page. */
  lemma CategoryOnlySearchedByAdmin(p: Product, term: string)
    requires term != ""
    requires !Includes(Lower(p.name), Lower(term)) && !Includes(Lower(p.id), Lower(term))
    requires Includes(Lower(p.category), Lower(term))
    ensures AdminView([p], term) == [p]
    ensures PublicView([p], term, AllCategories) == []
  {
    assert [p][1..] == [];
  }

  /** Position of the first product with the given id. */
  function FindIndex(all: seq<Product>, id: string): (r: Option<nat>)
    ensures r.Some? ==>
      && r.value < |all| && all[r.value].id == id
      && forall j :: 0 <= j < r.value ==> all[j].id != id
    ensures r.None? ==> forall j :: 0 <= j < |all| ==> all[j].id != id
  {
    if all == [] then None
    else if all[0].id == id then Some(0)
    else match FindIndex(all[1..], id)
      case None => None
      case Some(k) => Some(k + 1)
  }

  /** `allProducts.find(p => p.id == id)`. */
  function FindById(all: seq<Product>, id: string): (r: Option<Product>)
    ensures r.Some? ==> exists k :: 0 <= k < |all| && all[k] == r.value && r.value.id == id
                                  && forall j :: 0 <= j < k ==> all[j].id != id
    ensures r.None? ==> forall j :: 0 <= j < |all| ==> all[j].id != id
  {
    match FindIndex(all, id)
    case None => None
    case Some(k) => Some(all[k])
  }

  /** The image on a product card: the first comma-separated entry, trimmed, or the
      placeholder when that entry is blank. */
  function CoverImage(imageUrl: string, placeholder: string): (r: string)
    ensures r == placeholder || (r != "" && ',' !in r && !IsSpace(r[0]) && !IsSpace(r[|r| - 1]))
  {
    var first := Split(imageUrl, ',')[0];
    var trimmed := Trim(first);
    AbsentFromSlice(first, ',', LeadingSpaces(first), |trimmed|);
    if trimmed == "" then placeholder else trimmed
  }

  /** A product without images shows the placeholder. */
  lemma CoverOfNoImages(placeholder: string)
    ensures CoverImage("", placeholder) == placeholder
  {
    assert Split("", ',') == [""];
  }

  /** The cover of a joined image list is its first image, when that image is a
      comma-free URL without surrounding whitespace. */
  lemma CoverOfJoined(urls: seq<string>, placeholder: string)
    requires |urls| >= 1 && urls[0] != ""
    requires ',' !in urls[0] && !IsSpace(urls[0][0]) && !IsSpace(urls[0][|urls[0]| - 1])
    ensures CoverImage(Join(urls, ','), placeholder) == urls[0]
  {
    var rest := if |urls| == 1 then "" else [','] + Join(urls[1..], ',');
    assert Join(urls, ',') == "" + urls[0] + "" + rest;
    CoverOfPadded("", urls[0], "", rest, placeholder);
  }

  /** The cover is the first entry with its surrounding whitespace removed, whatever follows
      the first comma; an entry of whitespace only gives the placeholder. */
  lemma CoverOfPadded(w1: string, u: string, w2: string, rest: string, placeholder: string)
    requires forall k :: 0 <= k < |w1| ==> IsSpace(w1[k])
    requires forall k :: 0 <= k < |w2| ==> IsSpace(w2[k])
    requires ',' !in u && (u == [] || (!IsSpace(u[0]) && !IsSpace(u[|u| - 1])))
    requires rest == [] || rest[0] == ','
    ensures CoverImage(w1 + u + w2 + rest, placeholder) == if u == [] then placeholder else u
  {
    var first := w1 + u + w2;
    assert ',' !in first by {
      assert !IsSpace(',');
      assert forall k :: 0 <= k < |first| ==> first[k] in w1 || first[k] in u || first[k] in w2;
    }
    SplitPrefix(first, rest, ',');
    if rest == [] {
      assert Split(rest, ',') == [""];
    } else {
      assert Split(rest, ',')[0] == "";
    }
    assert first + "" == first;
    TrimPadded(w1, u, w2);
  }

  /** The cover of a comma-joined image list is the cover its first entry would give alone. */
  lemma CoverOfFirst(urls: seq<string>, placeholder: string)
    requires |urls| >= 1 && ',' !in urls[0]
    ensures CoverImage(Join(urls, ','), placeholder) == CoverImage(urls[0], placeholder)
  {
    var rest := if |urls| == 1 then "" else [','] + Join(urls[1..], ',');
    assert Join(urls, ',') == urls[0] + rest;
    SplitPrefix(urls[0], rest, ',');
    if rest == [] {
      assert Split(rest, ',') == [""];
    } else {
      assert Split(rest, ',')[0] == "";
    }
    assert urls[0] + "" == urls[0];
    SplitWithoutSeparator(urls[0], ',');
  }

  /** The card of a product whose images are `" a.jpg, b.jpg"` shows `a.jpg`. */
  lemma CoverExample()
    ensures CoverImage(" a.jpg, b.jpg", PlaceholderImage) == "a.jpg"
  {
    assert " a.jpg, b.jpg" == " " + "a.jpg" + "" + ", b.jpg";
    CoverOfPadded(" ", "a.jpg", "", ", b.jpg", PlaceholderImage);
  }

  /** A blank first entry shows the card placeholder, and no images at all the admin table's
      thumbnail placeholder. */
  lemma BlankCoverExample()
    ensures CoverImage(" ,b.jpg", PlaceholderImage) == PlaceholderImage
    ensures CoverImage("", PlaceholderThumb) == PlaceholderThumb
  {
    assert " ,b.jpg" == " " + "" + "" + ",b.jpg";
    CoverOfPadded(" ", "", "", ",b.jpg", PlaceholderImage);
    CoverOfNoImages(PlaceholderThumb);
  }
}
