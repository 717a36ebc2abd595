# MyShop storefront client: a verified model of its state and rules

MyShop is a small shop front end: a public catalog page (search box, category selector,
product cards) and an admin panel (login, a product table with search, and a product form
with a multi-image uploader). All persistence is done by a remote spreadsheet backend.
This project models, in Dafny, the part of `app.js` that is logic rather than rendering:

- the client state object (`_state`): the catalog, the filtered list, the current user, the
  category list, and the admin form's image staging (existing URLs plus newly selected files
  held in two parallel arrays, one of base64 payloads and one of file names);
- the public page's category-and-search filter and the admin table's search;
- the admin form's handlers: edit, clear, choose files, remove a previewed image, and submit
  (validate, upload new images one by one, merge URLs, add or update the product);
- sign-out and the password-change form's input checks;
- the cover-image rule used by product cards and admin thumbnails.

Modules, one per concern:

- `Options`: the optional value used for lookups and backend replies.
- `Seqs`: `Array.prototype.filter` (`Filter`), JavaScript's `splice(start, 1)` (`SpliceOne`),
  and subsequence facts.
- `Strings`: `toLowerCase`, `includes`, `split`/`join` on one character, `trim`, and
  `split(sep).pop()`.
- `Catalog`: the product record, the public and admin views, lookup by id, and the cover image.
- `Auth`: the user record and the password-change checks.
- `Editor`: the product form, the upload loop (`UploadNewImages`, specified by the function
  `Uploads`), and the whole submit pipeline as the function `Submit`.
- `App`: the class `State`, which mirrors `_state` together with the admin form's fields and
  the tab's session storage. Its methods are the handlers, each proved against the functions
  above. Each of them keeps the invariant `Valid`: the two new-file arrays have equal length,
  and every existing image is a non-empty, comma-free entry of a parsed image list.

The backend is an oracle. `uploadReply(i)` is its answer to the i-th upload request, and
`Some(url)` means success. A `Reply` is its answer to the add or update request. An
`Option<seq<Product>>` is the answer to the admin catalog reload, where `None` means the
request failed or was refused; the two have the same effect there. The public page's two
initial requests run together, so there a `GetReply` tells a rejected request (a network
failure or an error status) from an answer with `success` false. The submit handler returns the backend calls it made, in order, so
ordering and abort rules can be stated.

Points where the code's behaviour is easy to misread, which the model follows exactly:

- The MIME type of an upload is `image/` plus the text after the last dot of the file name,
  exactly as written. It is not lower-cased.
- The price is only checked to be non-empty. It is not parsed as a number.
- The public search looks at name and id only. The admin search also looks at the category.
  Category filtering is exact equality, with `ทั้งหมด` or an empty selection meaning "all".
- A failed upload shows one generic error and does not name the file. In the model, the
  returned call list shows which upload was the last one attempted.
- There is no cover-promotion (reordering) operation. There is no duplicate-file-name check.
  A product may be saved with no images at all.

## Model

| member | source | states |
|---|---|---|
| `Seqs.Filter` | app.js:605-608 | the result keeps exactly the accepted elements, in order: it is a subsequence of the input, every element is accepted, and every accepted input element is present |
| `Seqs.FilterMultiplicity` | app.js:605-608 | filtering keeps every copy of an accepted element and no copy of a rejected one |
| `Seqs.FilterCommute` | app.js:600-609 | applying two filters in either order gives the same list |
| `Seqs.FilterFuse` | app.js:600-609 | two filters in a row equal one filter by the conjunction |
| `Seqs.FilterConcat` | app.js:746 | filtering a concatenation is the concatenation of the filtered parts |
| `Seqs.SpliceOne` | app.js:807 | `splice(start, 1)` removes exactly the element at the normalised start (negative starts count from the end), shifting the rest down, and removes nothing when the start is past the end |
| `Seqs.SpliceStart` | app.js:811 | an index within the array's length in either direction is a position counted from the end when negative (`start % len`); an index past the end means the end, and one before the beginning means the first position |
| `Strings.Lower` | app.js:211 | lower-casing keeps the length, maps each character independently, and leaves no letter A-Z |
| `Strings.LowerIdempotent` | app.js:211 | lower-casing an already lower-cased string changes nothing |
| `Strings.IncludesIff` | app.js:213-215 | `Includes` (JavaScript's `includes`) holds exactly when the needle occurs at some position of the haystack |
| `Strings.IncludesEmpty` | app.js:603 | every string includes the empty string |
| `Strings.Split` | app.js:746 | a split yields at least one piece and no piece contains the separator |
| `Strings.JoinSplit` | app.js:699 | `Join` (JavaScript's `join`) is the inverse of `Split`: joining the pieces of a split restores the string |
| `Strings.SplitJoin` | app.js:746 | splitting a join of separator-free pieces restores the pieces |
| `Strings.SplitAtSeparator` | app.js:746 | splitting at one occurrence of the separator yields the pieces of the text before it followed by the pieces of the text after it |
| `Strings.LastPieceIsSuffix` | app.js:689 | `LastPiece`, that is `split(sep).pop()`, is the text after the last separator, and it is the whole string exactly when the split yields one piece |
| `Strings.Trim` | app.js:170 | trim returns the contiguous middle of the string, drops only whitespace around it, and leaves none at its ends |
| `Strings.TrimPadded` | app.js:170 | trimming a text that neither starts nor ends with whitespace, padded with whitespace on both sides, gives back exactly that text; padding alone trims to the empty string |
| `Catalog.PublicView` | app.js:597-613 | with no category and no term the whole catalog is shown; otherwise a product is listed iff it is in the catalog, has the selected category (when one is selected), and its lower-cased name or id contains the lower-cased term (when a term is given); every copy of a listed product is kept, and no copy of another one |
| `Catalog.PublicViewOrdered` | app.js:598-611 | the public list is an order-preserving subsequence of the catalog |
| `Catalog.EmptyTermMatchesAll` | app.js:603-608 | the empty term matches every product, so the search guard does not change the result |
| `Catalog.FiltersCommute` | app.js:600-609 | filtering by category then searching equals searching then filtering by category |
| `Catalog.AdminView` | app.js:209-217 | an empty term lists the whole catalog; otherwise a product is listed iff its lower-cased name, id or category contains the lower-cased term; every copy of a listed product is kept, and no copy of another one |
| `Catalog.AdminViewOrdered` | app.js:209-217 | the admin list is an order-preserving subsequence of the catalog |
| `Catalog.PublicWithinAdmin` | app.js:209-217 | for the same term, whatever the public page lists (under any category), the admin table lists too, in the same order |
| `Catalog.CategoryOnlySearchedByAdmin` | app.js:605-607 | a product matching the term only through its category is listed by the admin search and not by the public search |
| `Catalog.FindIndex` | app.js:736 | the result is the first position whose id equals the given id, or none when no product has it |
| `Catalog.FindById` | app.js:736-737 | the product found is the catalog's first product with the id; none is found only when no product has it |
| `Catalog.CoverImage` | app.js:169-170 | the card image is the placeholder, or a non-empty comma-free URL without surrounding whitespace |
| `Catalog.CoverOfNoImages` | app.js:169-170 | a product without images shows the placeholder |
| `Catalog.CoverOfJoined` | app.js:169-170 | the cover of a comma-joined image list is its first URL, when that URL is non-empty, comma-free and has no surrounding whitespace |
| `Catalog.CoverOfPadded` | app.js:169-170 | whatever follows the first comma, the cover is the first entry with its surrounding whitespace removed, and the placeholder when that entry is whitespace only |
| `Catalog.CoverExample` | app.js:169-170 | the card of a product with images `" a.jpg, b.jpg"` shows `a.jpg` |
| `Catalog.BlankCoverExample` | app.js:169-170 | a blank first entry shows the card placeholder, and no images at all shows the admin table's thumbnail placeholder (app.js:225-226) |
| `Auth.CheckPasswordChange` | app.js:500-516 | a blank field is reported first, then a mismatch; a request is sent iff all three fields are filled and the new password equals its confirmation, and it carries the current user, the current password and the new one |
| `Editor.MimeTypeExtension` | app.js:689 | `MimeType`, the MIME type sent with an upload, is `image/` followed by the file name's text after its last dot, or the whole name when it has no dot, case unchanged |
| `Editor.UploadsInOrder` | app.js:685-696 | in `Uploads`, the specification of the upload loop, uploads are attempted in file order; without a failure every file is attempted and every URL kept at its file's position; the run fails iff some upload fails, and then the failing upload is the last one attempted |
| `Editor.UploadsStayFailed` | app.js:693-695 | once an upload has failed, the remaining files change nothing: no further attempt and no further URL |
| `Editor.UploadNewImages` | app.js:683-697 | the loop's URLs and failure flag are those of the upload specification over all new files, and its calls are exactly one upload request per attempted file, in file order, with the MIME type from the file's extension |
| `Editor.SubmitValidatesFirst` | app.js:676-678 | in `Submit`, the specification of the whole submit handler, a form missing name, category or price ends as incomplete with no backend call; a complete form always calls the backend |
| `Editor.SubmitAtomic` | app.js:685-697 | the submit fails on upload iff some upload fails, and then only upload calls were made, so nothing is saved |
| `Editor.SubmitSavesMergedImages` | app.js:665-702 | when every upload succeeds, all files are uploaded in order and then the form's record is sent once, to the update action if it has an id and to the add action otherwise, with `image_url` the existing URLs followed by the uploaded ones joined by commas |
| `Editor.ParseImageList` | app.js:746 | the image list read from `image_url` holds only non-empty, comma-free URLs |
| `Editor.ParseImageListAtComma` | app.js:746 | the entries before and after a comma are parsed independently and concatenated, so empty entries are dropped wherever they are and the rest keep their order |
| `Editor.ParseImageListEntry` | app.js:746 | a comma-free entry is kept exactly when it is non-empty |
| `Editor.ImageListRoundTrip` | app.js:746 | parsing a comma-join of non-empty comma-free URLs gives back the URLs in order |
| `Editor.ImageListStable` | app.js:746 | saving an edited product's images unchanged and editing it again gives the same image list |
| `Editor.SavedImagesReload` | app.js:699 | after a save in which every uploaded URL is non-empty and comma-free, editing the product again stages its existing images followed by the uploaded ones, in order |
| `Editor.ImageListLosesUnsafeUrls` | app.js:699 | an image list holding an empty URL or a URL with a comma does not survive the join on save and the parse on edit |
| `Editor.SavedCover` | app.js:169-170 | after a save with comma-free URLs, the product's cover is the cover the first staged image would give on its own (so whitespace around it is trimmed away), and exactly that image when it has no surrounding whitespace |
| `Catalog.CoverOfFirst` | app.js:169-170 | when the first entry has no comma, the cover of a comma-joined image list is the cover that entry would give alone |
| `App.StagedOf` | app.js:254-265 | the preview lists the existing URLs first, then the new files; a position shows an existing image iff it is below the number of existing URLs |
| `App.RemoveStaged` | app.js:805-813 | removing a preview position from the existing URLs, or at the shifted position from both new-file arrays, removes exactly that one image from the preview order |
| `App.State.constructor` | app.js:20-28 | the initial state is empty, with the signed-out user; the tab's session storage is what it held before the page loaded |
| `App.State.LoadStoreData` | app.js:549-566 | when either request is rejected, neither answer is applied; otherwise a successful product answer replaces the catalog and shows all of it, a successful category answer replaces the categories, and an unsuccessful answer changes nothing |
| `App.State.FilterAndSearch` | app.js:597-613 | the filtered list becomes the public view of the catalog, a subsequence of it |
| `App.State.LoadProducts` | app.js:632-640 | a successful reload replaces the catalog; a failed one leaves it |
| `App.State.ClearProductForm` | app.js:721-729 | the form is empty and nothing is staged |
| `App.State.EditProduct` | app.js:735-752 | for a known id the form holds the product's fields, the existing images are its parsed image list, and no new files remain; an unknown id changes nothing |
| `App.State.HandleImageFileChange` | app.js:778-798 | the new-file arrays are replaced by the chosen files' payloads and names, position by position, the existing images unchanged; a missing file list changes nothing |
| `App.State.RemoveImage` | app.js:805-815 | an existing image is spliced out of the URL list alone; otherwise both new-file arrays are spliced at the same shifted index and stay equal in length; called as the preview calls it, exactly the chosen image leaves the preview order |
| `App.State.HandleProductFormSubmit` | app.js:663-716 | the outcome and backend calls are those of the submit specification; a save clears the form and reloads the catalog, and any other ending changes no state |
| `App.State.Logout` | app.js:488-494 | the session storage is emptied and the user reset, whatever the state before, so signing out twice equals signing out once |

## Left out

- `Strings.Lower`: only the letters A-Z are lower-cased. JavaScript's full Unicode case mapping is not modelled. Thai text, the shop's main script, has no case.
- `App.State.HandleImageFileChange`: files are appended in the order they were chosen. In the source, each file is appended when its asynchronous reader finishes, and readers may finish in any order. Each payload still stays paired with its name. The base64 payload is taken as given, because the data-URL decoding is not modelled. The handlers are modelled as atomic steps, so a reader that finishes late is not modelled either: one that finishes during a submit, whose upload loop re-reads the number of new files on every iteration (app.js:685), or one that finishes after `clearProductForm` or `editProduct` has reset the arrays and appends to the new form.
- `App.State.HandleProductFormSubmit`: the catalog reload after a save is applied at once. In the source it is not awaited.
- The backend transport (`API.get`, `API.post`, HTTP status, JSON decoding) is network I/O. The backend's answers are parameters of the model.
- The global reauthentication hook, which shows a modal and then signs out, is asynchronous modal chaining.
- `Auth.login` and `Auth.checkLoginStatus` are left out. They depend on the network and on JSON parsing of session storage. The session is only modelled as a map, so that sign-out can be stated.
- `Admin.deleteProduct` needs a confirmation modal and a network call, and it changes no client state before the reload.
- All rendering, toasts, modals, animations and the loader are DOM work.
- `Utils.debounce` uses timers. `Promise.all` runs the two initial loads concurrently; the model applies both answers together, or neither when one request is rejected.
- Price display uses `parseFloat(...).toFixed(2)`, which is floating-point formatting.
- Product ids are compared as strings. The source's loose `==` between a numeric id and its text form is not modelled.
- A successful upload reply is assumed to carry a URL string. An uploaded URL that is empty or contains a comma does not survive a save and reload: the join on save and the split on edit drop the empty one and cut the other in two (`Editor.ImageListLosesUnsafeUrls`). The lemmas about reloading state their results for non-empty, comma-free URLs only.
- Product names and categories are assumed to be text. The source lower-cases them without converting them first, so a numeric name or category cell would make both searches throw. Only the id is converted with `toString()`.
