/**
 * The admin product form's submit pipeline: validate the required fields, upload the newly
 * selected images one at a time (stopping at the first failure), append their URLs to the
 * existing ones, and send the whole record to the add or update action.
 *
 * The backend is an oracle: `uploadReply(i)` is its answer to the i-th upload request
 * (`Some(url)` on success), and a `Reply` is its answer to the save request.
 */
module Editor {
  import opened Options
  import opened Seqs
  import opened Strings
  import opened Catalog

  /** The fields of the admin product form. */
  datatype ProductForm = ProductForm(id: string, name: string, category: string, price: string, shopeeUrl: string)

  /** The form after a reset: no id, so the next submit adds a product. */
  const EmptyForm: ProductForm := ProductForm("", "", "", "", "")

  /** The form filled in for editing a product. */
  function FormFor(p: Product): ProductForm
  {
    ProductForm(p.id, p.name, p.category, p.price, p.shopeeUrl)
  }

  /** Name, category and price are all required. */
  predicate MissingRequired(f: ProductForm)
  {
    f.name == "" || f.category == "" || f.price == ""
  }

  /** A form with an id updates that product; one without adds a new product. */
  function SaveAction(id: string): string
  {
    if id != "" then "secureUpdateProduct" else "secureAddProduct"
  }

  /** `image/` followed by what `fileName.split('.').pop()` returns. */
  function MimeType(fileName: string): string
  {
    "image/" + LastPiece(fileName, '.')
  }

  /** The MIME type names the file's extension exactly as written: the text after the last dot,
      or the whole name when there is no dot. */
  lemma MimeTypeExtension(fileName: string)
    ensures var m := MimeType(fileName);
      var ext := m[|"image/"|..];
      && m[..|"image/"|] == "image/"
      && |ext| <= |fileName|
      && ext == fileName[|fileName| - |ext|..]
      && '.' !in ext
      && ('.' in fileName ==> fileName[|fileName| - |ext| - 1] == '.')
      && ('.' !in fileName ==> ext == fileName)
  {
    LastPieceIsSuffix(fileName, '.');
    var ext := LastPiece(fileName, '.');
    assert MimeType(fileName) == "image/" + ext;
    assert ("image/" + ext)[|"image/"|..] == ext && ("image/" + ext)[..|"image/"|] == "image/";
    if |ext| < |fileName| {
      assert fileName[|fileName| - |ext| - 1] in fileName;
    } else {
      assert ext == fileName;
    }
  }

  /** A call the submit pipeline makes to the backend. */
  datatype BackendCall =
    | UploadImage(imageData: string, fileName: string, mimeType: string)
    | SaveProduct(action: string, record: Product)

  /** The upload request for the i-th newly selected file. */
  function UploadCall(base64s: seq<string>, names: seq<string>, i: nat): BackendCall
    requires i < |base64s| == |names|
  {
    UploadImage(base64s[i], names[i], MimeType(names[i]))
  }

  /** The upload requests for the first k new files, in file order. */
  function UploadCalls(base64s: seq<string>, names: seq<string>, k: nat): (r: seq<BackendCall>)
    requires k <= |base64s| == |names|
    ensures |r| == k
    ensures forall i :: 0 <= i < k ==> r[i] == UploadCall(base64s, names, i)
  {
    seq(k, (i: nat) requires i < k => UploadCall(base64s, names, i))
  }

  /** The state of the upload loop: URLs received, uploads attempted, and whether one failed. */
  datatype UploadRun = UploadRun(urls: seq<string>, attempted: nat, failed: bool)

  /** The upload loop over the first n files; after a failure no further upload is attempted. */
  function Uploads(uploadReply: nat -> Option<string>, n: nat): (r: UploadRun)
    ensures r.attempted <= n
  {
    if n == 0 then UploadRun([], 0, false)
    else
      var prev := Uploads(uploadReply, n - 1);
      if prev.failed then prev
      else
        match uploadReply(n - 1)
        case Some(url) => UploadRun(prev.urls + [url], n, false)
        case None => UploadRun(prev.urls, n, true)
  }

  /** Uploads are attempted in file order until the first failure, which is the last attempt;
      each received URL stays at its file's position; the run fails exactly when some file's
      upload fails. */
  lemma {:induction false} UploadsInOrder(uploadReply: nat -> Option<string>, n: nat)
    ensures var run := Uploads(uploadReply, n);
      && (!run.failed ==> run.attempted == n && |run.urls| == n)
      && (run.failed ==> run.attempted >= 1 && |run.urls| == run.attempted - 1
                         && uploadReply(run.attempted - 1).None?)
      && (forall i :: 0 <= i < |run.urls| ==> uploadReply(i) == Some(run.urls[i]))
      && (run.failed <==> exists i :: 0 <= i < n && uploadReply(i).None?)
  {
    if n > 0 {
      UploadsInOrder(uploadReply, n - 1);
      var prev := Uploads(uploadReply, n - 1);
      if !prev.failed && uploadReply(n - 1).Some? {
        assert Uploads(uploadReply, n).urls == prev.urls + [uploadReply(n - 1).value];
      }
    }
  }

  /** Once an upload has failed, later files change nothing. */
  lemma {:induction false} UploadsStayFailed(uploadReply: nat -> Option<string>, m: nat, n: nat)
    requires m <= n
    requires Uploads(uploadReply, m).failed
    ensures Uploads(uploadReply, n) == Uploads(uploadReply, m)
    decreases n - m
  {
    if m < n {
      UploadsStayFailed(uploadReply, m, n - 1);
    }
  }

  /** The upload loop of the submit handler: one request per new file, in order, aborting on
      the first failed upload. */
  method UploadNewImages(base64s: seq<string>, names: seq<string>, uploadReply: nat -> Option<string>)
    returns (urls: seq<string>, failed: bool, calls: seq<BackendCall>)
    requires |base64s| == |names|
    ensures var run := Uploads(uploadReply, |base64s|);
      urls == run.urls && failed == run.failed && calls == UploadCalls(base64s, names, run.attempted)
  {
    urls, failed, calls := [], false, [];
    var i := 0;
    while i < |base64s| && !failed
      invariant 0 <= i <= |base64s|
      invariant var run := Uploads(uploadReply, i);
        urls == run.urls && failed == run.failed && run.attempted == i
      invariant calls == UploadCalls(base64s, names, i)
      invariant failed ==> Uploads(uploadReply, |base64s|) == Uploads(uploadReply, i)
    {
      calls := calls + [UploadImage(base64s[i], names[i], MimeType(names[i]))];
      match uploadReply(i) {
        case Some(url) =>
          urls := urls + [url];
        case None =>
          failed := true;
          UploadsStayFailed(uploadReply, i + 1, |base64s|);
      }
      i := i + 1;
    }
  }

  /** The URLs the backend answered for the first n uploads (blank where it refused). */
  function AnsweredUrls(uploadReply: nat -> Option<string>, n: nat): (r: seq<string>)
    ensures |r| == n
  {
    seq(n, (i: nat) => match uploadReply(i) case Some(url) => url case None => "")
  }

  /** The backend's answer to the add or update request. */
  datatype Reply = Reply(success: bool, message: string)

  /** How a submit ends: a warning about missing fields, a failed upload, a saved record,
      or the backend's refusal with its message. */
  datatype SubmitOutcome = Incomplete | UploadFailed | Saved(record: Product) | Rejected(message: string)

  /** What a submit returns and which backend calls it made, in order. */
  datatype Submission = Submission(outcome: SubmitOutcome, calls: seq<BackendCall>)

  /** The record sent to the backend. */
  function Record(f: ProductForm, imageUrl: string): Product
  {
    Product(f.id, f.name, f.category, f.price, f.shopeeUrl, imageUrl)
  }

  /** The `image_url` field: existing URLs, then uploaded ones, joined by commas. */
  function ImageUrlField(existing: seq<string>, uploaded: seq<string>): string
  {
    Join(existing + uploaded, ',')
  }

  /** The whole submit handler as a function of the form, the staged images and the backend's answers. */
  function Submit(f: ProductForm, existing: seq<string>, base64s: seq<string>, names: seq<string>,
                  uploadReply: nat -> Option<string>, saveReply: Reply): Submission
    requires |base64s| == |names|
  {
    if MissingRequired(f) then Submission(Incomplete, [])
    else
      var run := Uploads(uploadReply, |base64s|);
      var uploads := UploadCalls(base64s, names, run.attempted);
      if run.failed then Submission(UploadFailed, uploads)
      else
        var record := Record(f, ImageUrlField(existing, run.urls));
        var calls := uploads + [SaveProduct(SaveAction(f.id), record)];
        if saveReply.success then Submission(Saved(record), calls)
        else Submission(Rejected(saveReply.message), calls)
  }

  /** A form missing a required field makes no backend call at all. */
  lemma SubmitValidatesFirst(f: ProductForm, existing: seq<string>, base64s: seq<string>, names: seq<string>,
                             uploadReply: nat -> Option<string>, saveReply: Reply)
    requires |base64s| == |names|
    ensures var s := Submit(f, existing, base64s, names, uploadReply, saveReply);
      (s.calls == [] <==> MissingRequired(f)) && (s.outcome.Incomplete? <==> MissingRequired(f))
  {
    UploadsInOrder(uploadReply, |base64s|);
  }

  /** A failed upload aborts the submit: the record is saved only if every upload succeeded,
      and after a failure no save request is made. */
  lemma SubmitAtomic(f: ProductForm, existing: seq<string>, base64s: seq<string>, names: seq<string>,
                     uploadReply: nat -> Option<string>, saveReply: Reply)
    requires |base64s| == |names|
    requires !MissingRequired(f)
    ensures var s := Submit(f, existing, base64s, names, uploadReply, saveReply);
      && (s.outcome.UploadFailed? <==> exists i :: 0 <= i < |base64s| && uploadReply(i).None?)
      && (s.outcome.UploadFailed? ==> forall k :: 0 <= k < |s.calls| ==> s.calls[k].UploadImage?)
  {
    UploadsInOrder(uploadReply, |base64s|);
  }

  /** A submit that reaches the backend's save request uploads every new file in order and
      then sends the form's fields with the existing URLs followed by the uploaded ones, to the
      update action when the form has an id and to the add action otherwise. */
  lemma SubmitSavesMergedImages(f: ProductForm, existing: seq<string>, base64s: seq<string>, names: seq<string>,
                                uploadReply: nat -> Option<string>, saveReply: Reply)
    requires |base64s| == |names|
    requires !MissingRequired(f)
    requires forall i :: 0 <= i < |base64s| ==> uploadReply(i).Some?
    ensures var s := Submit(f, existing, base64s, names, uploadReply, saveReply);
      var record := Record(f, Join(existing + AnsweredUrls(uploadReply, |base64s|), ','));
      && |s.calls| == |base64s| + 1
      && (forall i :: 0 <= i < |base64s| ==> s.calls[i] == UploadCall(base64s, names, i))
      && s.calls[|base64s|] == SaveProduct(if f.id != "" then "secureUpdateProduct" else "secureAddProduct", record)
      && s.outcome == (if saveReply.success then Saved(record) else Rejected(saveReply.message))
  {
    UploadsInOrder(uploadReply, |base64s|);
    var run := Uploads(uploadReply, |base64s|);
    assert run.urls == AnsweredUrls(uploadReply, |base64s|);
  }

  /** `String(image_url || '').split(',').filter(Boolean)`: the non-empty comma-separated entries. */
  function ParseImageList(imageUrl: string): (r: seq<string>)
    ensures forall k :: 0 <= k < |r| ==> r[k] != "" && ',' !in r[k]
  {
    Filter(Split(imageUrl, ','), (u: string) => u != "")
  }

  /** The entries on either side of a comma are parsed independently, so empty entries
      anywhere are dropped and the rest keep their order. */
  lemma ParseImageListAtComma(a: string, b: string)
    ensures ParseImageList(a + [','] + b) == ParseImageList(a) + ParseImageList(b)
  {
    SplitAtSeparator(a, b, ',');
    FilterConcat(Split(a, ','), Split(b, ','), (u: string) => u != "");
  }

  /** An entry without a comma is kept exactly when it is non-empty. */
  lemma ParseImageListEntry(u: string)
    requires ',' !in u
    ensures ParseImageList(u) == if u == "" then [] else [u]
  {
    SplitWithoutSeparator(u, ',');
  }

  /** Joining non-empty comma-free URLs and parsing the result gives back the URLs. */
  lemma ImageListRoundTrip(urls: seq<string>)
    requires forall k :: 0 <= k < |urls| ==> urls[k] != "" && ',' !in urls[k]
    ensures ParseImageList(Join(urls, ',')) == urls
  {
    if urls == [] {
      assert Split("", ',') == [""];
    } else {
      SplitJoin(urls, ',');
      FilterKeepsAll(urls, (u: string) => u != "");
    }
  }

  /** Saving an edited product unchanged and editing it again gives the same image list. */
  lemma ImageListStable(imageUrl: string)
    ensures ParseImageList(Join(ParseImageList(imageUrl), ',')) == ParseImageList(imageUrl)
  {
    ImageListRoundTrip(ParseImageList(imageUrl));
  }

  /** An image list with an empty URL or a URL containing a comma does not come back from a
      join and a parse: the empty URL is dropped and the other is cut at its comma. */
  lemma ImageListLosesUnsafeUrls(urls: seq<string>, k: nat)
    requires k < |urls| && (urls[k] == "" || ',' in urls[k])
    ensures ParseImageList(Join(urls, ',')) != urls
  {
    var parsed := ParseImageList(Join(urls, ','));
    if |parsed| == |urls| {
      assert parsed[k] != "" && ',' !in parsed[k];
    }
  }

  /** After a successful save, opening the product for editing again stages the existing
      images followed by the uploaded ones, in that order. */
  lemma SavedImagesReload(f: ProductForm, existing: seq<string>, base64s: seq<string>, names: seq<string>,
                          uploadReply: nat -> Option<string>, saveReply: Reply)
    requires |base64s| == |names|
    requires forall k :: 0 <= k < |existing| ==> existing[k] != "" && ',' !in existing[k]
    requires forall i :: 0 <= i < |base64s| && uploadReply(i).Some? ==>
      uploadReply(i).value != "" && ',' !in uploadReply(i).value
    ensures var s := Submit(f, existing, base64s, names, uploadReply, saveReply);
      s.outcome.Saved? ==>
        ParseImageList(s.outcome.record.imageUrl)
          == existing + AnsweredUrls(uploadReply, |base64s|)
  {
    var s := Submit(f, existing, base64s, names, uploadReply, saveReply);
    if s.outcome.Saved? {
      UploadsInOrder(uploadReply, |base64s|);
      var run := Uploads(uploadReply, |base64s|);
      var all := existing + run.urls;
      assert forall k :: 0 <= k < |all| ==> all[k] != "" && ',' !in all[k] by {
        forall k | 0 <= k < |all|
          ensures all[k] != "" && ',' !in all[k]
        {
          if k >= |existing| {
            assert uploadReply(k - |existing|) == Some(run.urls[k - |existing|]);
          }
        }
      }
      ImageListRoundTrip(all);
      assert run.urls == AnsweredUrls(uploadReply, |base64s|);
    }
  }

  /** A URL the cover-image rule returns unchanged: non-empty, comma-free, no surrounding whitespace. */
  predicate CleanUrl(u: string)
  {
    u != "" && ',' !in u && !IsSpace(u[0]) && !IsSpace(u[|u| - 1])
  }

  /** A clean URL is its own cover. */
  lemma CoverOfClean(u: string, placeholder: string)
    requires CleanUrl(u)
    ensures CoverImage(u, placeholder) == u
  {
    assert u == "" + u + "" + "";
    CoverOfPadded("", u, "", "", placeholder);
  }

  /** After a successful save the product's cover is what the first staged image would show on
      its own (the first existing URL, or the first uploaded one when there were none), trimmed
      as the card trims it; a clean first URL is itself the cover. */
  lemma SavedCover(f: ProductForm, existing: seq<string>, base64s: seq<string>, names: seq<string>,
                   uploadReply: nat -> Option<string>, saveReply: Reply, placeholder: string)
    requires |base64s| == |names|
    requires |existing| + |base64s| >= 1
    requires forall k :: 0 <= k < |existing| ==> ',' !in existing[k]
    requires forall i :: 0 <= i < |base64s| && uploadReply(i).Some? ==> ',' !in uploadReply(i).value
    ensures var s := Submit(f, existing, base64s, names, uploadReply, saveReply);
      var first := (existing + AnsweredUrls(uploadReply, |base64s|))[0];
      s.outcome.Saved? ==>
        && CoverImage(s.outcome.record.imageUrl, placeholder) == CoverImage(first, placeholder)
        && (CleanUrl(first) ==> CoverImage(s.outcome.record.imageUrl, placeholder) == first)
  {
    var s := Submit(f, existing, base64s, names, uploadReply, saveReply);
    if s.outcome.Saved? {
      UploadsInOrder(uploadReply, |base64s|);
      var run := Uploads(uploadReply, |base64s|);
      assert run.urls == AnsweredUrls(uploadReply, |base64s|);
      var all := existing + run.urls;
      if existing == [] {
        assert uploadReply(0) == Some(run.urls[0]);
      }
      CoverOfFirst(all, placeholder);
      if CleanUrl(all[0]) {
        CoverOfClean(all[0], placeholder);
      }
    }
  }
}
