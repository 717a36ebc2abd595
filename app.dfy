/**
 * The application state object and the handlers that change it: the public page's filter,
 * the admin form's image staging (existing URLs plus newly selected files kept in two
 * parallel arrays), editing, clearing and submitting the form, and signing out.
 */
module App {
  import opened Options
  import opened Seqs
  import opened Catalog
  import opened Auth
  import opened Editor

  /** The outcome of a GET request: it was rejected (a network failure or an error status, both
      rethrown to the caller), or the backend answered with its `success` flag and its data. */
  datatype GetReply<T> = Failed | Answered(success: bool, data: T)

  /** One image in the form's preview: an existing URL, or a selected file not yet uploaded. */
  datatype StagedImage = Existing(url: string) | Pending(fileName: string, base64: string)

  /** A file from the file input, with the base64 payload its reader produced. */
  datatype SelectedFile = SelectedFile(name: string, base64: string)

  /** The preview order: the existing images, then the new files. */
  function StagedOf(images: seq<string>, base64s: seq<string>, names: seq<string>): (r: seq<StagedImage>)
    requires |base64s| == |names|
    ensures |r| == |images| + |base64s|
    ensures forall i :: 0 <= i < |r| ==> (r[i].Existing? <==> i < |images|)
    ensures forall i :: 0 <= i < |images| ==> r[i] == Existing(images[i])
    ensures forall j :: 0 <= j < |base64s| ==> r[|images| + j] == Pending(names[j], base64s[j])
  {
    seq(|images|, (i: int) requires 0 <= i < |images| => Existing(images[i]))
    + seq(|base64s|, (j: int) requires 0 <= j < |base64s| => Pending(names[j], base64s[j]))
  }

  /** Removing preview position `index` is a splice of the existing URLs when the position is an
      existing image, and the same splice of both new-file arrays at `index - |images|` otherwise. */
  lemma RemoveStaged(images: seq<string>, base64s: seq<string>, names: seq<string>, index: int)
    requires |base64s| == |names|
    requires 0 <= index < |images| + |base64s|
    ensures var before := StagedOf(images, base64s, names);
      var after := if index < |images| then StagedOf(SpliceOne(images, index), base64s, names)
                   else StagedOf(images, SpliceOne(base64s, index - |images|), SpliceOne(names, index - |images|));
      after == before[..index] + before[index + 1..]
  {
    var before := StagedOf(images, base64s, names);
    var expected := before[..index] + before[index + 1..];
    if index < |images| {
      var after := StagedOf(SpliceOne(images, index), base64s, names);
      assert |after| == |expected|;
      forall i | 0 <= i < |after|
        ensures after[i] == expected[i]
      {
        if i >= |images| - 1 {
          assert after[i] == before[i + 1];
        }
      }
    } else {
      var k := index - |images|;
      var after := StagedOf(images, SpliceOne(base64s, k), SpliceOne(names, k));
      assert |after| == |expected|;
      forall i | 0 <= i < |after|
        ensures after[i] == expected[i]
      {
        if |images| <= i < index {
          assert after[i] == before[i];
        } else if i >= index {
          assert after[i] == before[i + 1];
        }
      }
    }
  }

  /** The page's state. No method stands for the user typing into the form: the form's fields
      are set by `EditProduct` and `ClearProductForm`, and otherwise they are whatever the form
      holds when a handler runs. */
  class State {
    var allProducts: seq<Product>
    var filteredProducts: seq<Product>
    var currentUser: User
    var categories: seq<string>
    var productImages: seq<string>       // existing image URLs of the product being edited
    var selectedFileBase64: seq<string>  // newly selected images, as base64
    var selectedFileNames: seq<string>   // their file names, position by position
    var form: ProductForm                // the admin form's input fields
    var session: map<string, string>     // the tab's session storage

    /** The two new-file arrays describe the same files, so they have the same length; the
        existing images are entries of a parsed image list, so each is non-empty and comma-free. */
    predicate Valid()
      reads this
    {
      && |selectedFileBase64| == |selectedFileNames|
      && forall k :: 0 <= k < |productImages| ==> productImages[k] != "" && ',' !in productImages[k]
    }

    /** The images the form previews, in order. */
    function Staged(): seq<StagedImage>
      reads this
      requires Valid()
    {
      StagedOf(productImages, selectedFileBase64, selectedFileNames)
    }

    /** The preview's test for whether position `index` shows an existing image. */
    predicate IsExisting(index: int)
      reads this
    {
      index < |productImages|
    }

    /** The session holds a token and a user, which is when the admin panel is shown. */
    predicate LoggedIn()
      reads this
    {
      "sessionToken" in session && session["sessionToken"] != "" && "currentUser" in session
    }

    /** A fresh page: empty state with the signed-out user. The tab's session storage is
        whatever it held before the page loaded, since it survives a reload. */
    constructor (storedSession: map<string, string>)
      ensures Valid() && Staged() == []
      ensures allProducts == [] && filteredProducts == [] && categories == []
      ensures currentUser == SignedOut && form == EmptyForm && session == storedSession
    {
      allProducts, filteredProducts, categories := [], [], [];
      currentUser := SignedOut;
      productImages, selectedFileBase64, selectedFileNames := [], [], [];
      form := EmptyForm;
      session := storedSession;
    }

    /** Loading the public page: both requests run together, so a rejected request of either
        kind applies neither answer; otherwise a successful product answer replaces the catalog
        and shows all of it, and a successful category answer replaces the category list. */
    method LoadStoreData(products: GetReply<seq<Product>>, categoryList: GetReply<seq<string>>)
      modifies this`allProducts, this`filteredProducts, this`categories
      ensures products.Failed? || categoryList.Failed? ==>
        allProducts == old(allProducts) && filteredProducts == old(filteredProducts)
        && categories == old(categories)
      ensures products.Answered? && categoryList.Answered? ==>
        && (products.success ==>
              allProducts == products.data && filteredProducts == PublicView(allProducts, "", AllCategories))
        && (!products.success ==> allProducts == old(allProducts) && filteredProducts == old(filteredProducts))
        && categories == if categoryList.success then categoryList.data else old(categories)
    {
      if products.Failed? || categoryList.Failed? {
        return;
      }
      if products.success {
        allProducts := products.data;
        filteredProducts := products.data;
      }
      if categoryList.success {
        categories := categoryList.data;
      }
    }

    /** The public page's filter: the catalog narrowed to the category, then to the search term. */
    method FilterAndSearch(term: string, category: string)
      modifies this`filteredProducts
      ensures filteredProducts == PublicView(allProducts, term, category)
      ensures IsSubsequence(filteredProducts, allProducts)
    {
      filteredProducts := PublicView(allProducts, term, category);
      PublicViewOrdered(allProducts, term, category);
    }

    /** Reloading the admin catalog: a successful reply replaces it, anything else leaves it. */
    method LoadProducts(reply: Option<seq<Product>>)
      modifies this`allProducts
      ensures allProducts == if reply.Some? then reply.value else old(allProducts)
    {
      if reply.Some? {
        allProducts := reply.value;
      }
    }

    /** Resetting the form: empty fields, no id, and nothing staged. */
    method ClearProductForm()
      modifies this`form, this`productImages, this`selectedFileBase64, this`selectedFileNames
      ensures Valid() && form == EmptyForm && Staged() == []
    {
      form := EmptyForm;
      productImages, selectedFileBase64, selectedFileNames := [], [], [];
    }

    /** Opening a product for editing: its fields fill the form and its image list becomes the
        existing images; previously selected files are dropped. An unknown id changes nothing. */
    method EditProduct(id: string)
      requires Valid()
      modifies this`form, this`productImages, this`selectedFileBase64, this`selectedFileNames
      ensures Valid()
      ensures var found := FindById(allProducts, id);
        && (found.None? ==> form == old(form) && Staged() == old(Staged()))
        && (found.Some? ==> form == FormFor(found.value)
                            && productImages == ParseImageList(found.value.imageUrl)
                            && selectedFileBase64 == [] && selectedFileNames == [])
    {
      var found := FindById(allProducts, id);
      if found.None? {
        return;
      }
      var p := found.value;
      form := FormFor(p);
      productImages := ParseImageList(p.imageUrl);
      selectedFileBase64, selectedFileNames := [], [];
    }

    /** Choosing files: the new-file arrays are reset, then each file's payload and name are
        appended, in file order. A missing file list changes nothing. */
    method HandleImageFileChange(files: Option<seq<SelectedFile>>)
      requires Valid()
      modifies this`selectedFileBase64, this`selectedFileNames
      ensures Valid()
      ensures files.None? ==> selectedFileBase64 == old(selectedFileBase64) && selectedFileNames == old(selectedFileNames)
      ensures files.Some? ==>
        && |selectedFileBase64| == |files.value|
        && forall i :: 0 <= i < |files.value| ==>
             selectedFileBase64[i] == files.value[i].base64 && selectedFileNames[i] == files.value[i].name
      ensures files.Some? ==> Staged()[..|productImages|] == old(Staged())[..|productImages|]
    {
      if files.None? {
        return;
      }
      var fs := files.value;
      selectedFileBase64, selectedFileNames := [], [];
      for i := 0 to |fs|
        invariant |selectedFileBase64| == |selectedFileNames| == i
        invariant forall k :: 0 <= k < i ==> selectedFileBase64[k] == fs[k].base64 && selectedFileNames[k] == fs[k].name
      {
        selectedFileBase64 := selectedFileBase64 + [fs[i].base64];
        selectedFileNames := selectedFileNames + [fs[i].name];
      }
    }

    /** The preview's remove button: an existing image is spliced out of the URL list; a new
        file is spliced out of both new-file arrays at its position among the new files. */
    method RemoveImage(index: int, isExisting: bool)
      requires Valid()
      modifies this`productImages, this`selectedFileBase64, this`selectedFileNames
      ensures Valid()
      ensures isExisting ==>
        && productImages == SpliceOne(old(productImages), index)
        && selectedFileBase64 == old(selectedFileBase64) && selectedFileNames == old(selectedFileNames)
      ensures !isExisting ==>
        && productImages == old(productImages)
        && selectedFileBase64 == SpliceOne(old(selectedFileBase64), index - |old(productImages)|)
        && selectedFileNames == SpliceOne(old(selectedFileNames), index - |old(productImages)|)
      ensures 0 <= index < |old(Staged())| && isExisting == old(IsExisting(index)) ==>
        Staged() == old(Staged())[..index] + old(Staged())[index + 1..]
    {
      ghost var images, base64s, names := productImages, selectedFileBase64, selectedFileNames;
      if isExisting {
        productImages := SpliceOne(productImages, index);
      } else {
        var newIndex := index - |productImages|;
        selectedFileBase64 := SpliceOne(selectedFileBase64, newIndex);
        selectedFileNames := SpliceOne(selectedFileNames, newIndex);
      }
      if 0 <= index < |images| + |base64s| && isExisting == (index < |images|) {
        RemoveStaged(images, base64s, names, index);
      }
    }

    /** The form's submit handler. It returns what `Submit` describes for the form and staged
        images as they were; a save clears the form and reloads the catalog from `reloadReply`,
        and any other ending leaves the state as it was. */
    method HandleProductFormSubmit(uploadReply: nat -> Option<string>, saveReply: Reply,
                                   reloadReply: Option<seq<Product>>)
      returns (outcome: SubmitOutcome, calls: seq<BackendCall>)
      requires Valid()
      modifies this`form, this`productImages, this`selectedFileBase64, this`selectedFileNames, this`allProducts
      ensures Valid()
      ensures Submission(outcome, calls)
        == Submit(old(form), old(productImages), old(selectedFileBase64), old(selectedFileNames), uploadReply, saveReply)
      ensures outcome.Saved? ==>
        && form == EmptyForm && Staged() == []
        && allProducts == if reloadReply.Some? then reloadReply.value else old(allProducts)
      ensures !outcome.Saved? ==>
        && form == old(form) && productImages == old(productImages)
        && selectedFileBase64 == old(selectedFileBase64) && selectedFileNames == old(selectedFileNames)
        && allProducts == old(allProducts)
    {
      if MissingRequired(form) {
        return Incomplete, [];
      }
      var urls, failed, uploadCalls := UploadNewImages(selectedFileBase64, selectedFileNames, uploadReply);
      if failed {
        return UploadFailed, uploadCalls;
      }
      var record := Record(form, ImageUrlField(productImages, urls));
      calls := uploadCalls + [SaveProduct(SaveAction(form.id), record)];
      if saveReply.success {
        outcome := Saved(record);
        ClearProductForm();
        LoadProducts(reloadReply);
      } else {
        outcome := Rejected(saveReply.message);
      }
    }

    /** Signing out empties the session storage and resets the current user. */
    method Logout()
      modifies this`session, this`currentUser
      ensures session == map[] && currentUser == SignedOut && !LoggedIn()
    {
      session := map[];
      currentUser := SignedOut;
    }
  }
}
