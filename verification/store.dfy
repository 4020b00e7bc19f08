/**
 * The upload directory as an immutable map from file name to contents, with
 * the POST branch of `upload` (app.py lines 43-74), `find_existing_for_date`
 * (app.py lines 27-33) and the one-photo-per-date invariant they keep.
 */
module PhotoStore {
  import opened Wrappers
  import opened Text
  import opened Naming
  import opened Dates

  type Bytes = seq<bv8>

  /** The upload directory: file name to file contents. A directory that
      does not exist reads as the empty map. */
  type Store = map<string, Bytes>

  /** An uploaded form file: its client-side name and its bytes. */
  datatype FileUpload = FileUpload(filename: string, data: Bytes)

  /** How an upload ends. Each failure carries what the handler redirects
      with: nothing for a bad date, the date otherwise. */
  datatype Outcome =
    | InvalidDate
    | MissingFile(date: string)
    | UnsupportedType(date: string)
    | Saved(date: string, name: string)

  datatype UploadResult = UploadResult(outcome: Outcome, store: Store)

  /** `name` is `{date}.{e}` for an allowed extension `e`. */
  predicate IsPhotoOf(name: string, date: string) {
    exists e :: e in Allowed && name == StoredName(date, e)
  }

  /** At most one allowed-extension file per date. */
  ghost predicate OnePerDate(store: Store) {
    forall d, e1, e2 ::
      e1 in Allowed && e2 in Allowed && StoredName(d, e1) in store && StoredName(d, e2) in store
      ==> e1 == e2
  }

  /** Every file is `{date}.{e}` for a well-formed date and an allowed
      `e`: the only kind of name an upload writes. */
  ghost predicate OnlyPhotos(store: Store) {
    forall n :: n in store ==> exists d, e :: IsDateSyntax(d) && e in Allowed && n == StoredName(d, e)
  }

  /** The clean-up loop of the upload handler over extensions `exts`:
      each existing `{date}.{e}` other than `keep` is removed (removal is
      taken to succeed). */
  function RemoveStale(store: Store, date: string, keep: string, exts: seq<string>): (r: Store)
    ensures r == store - (set e | e in exts && StoredName(date, e) != keep :: StoredName(date, e))
  {
    if |exts| == 0 then store
    else
      var stale := StoredName(date, exts[0]);
      var next := if stale in store && stale != keep then store - {stale} else store;
      var r := RemoveStale(next, date, keep, exts[1..]);
      assert (set e | e in exts && StoredName(date, e) != keep :: StoredName(date, e))
          == (if stale != keep then {stale} else {})
             + (set e | e in exts[1..] && StoredName(date, e) != keep :: StoredName(date, e));
      r
  }

  /** The clean-up's result does not depend on the order in which it
      visits the extensions, only on which it visits. */
  lemma CleanUpOrderIrrelevant(store: Store, date: string, keep: string, o1: seq<string>, o2: seq<string>)
    requires forall e :: e in o1 <==> e in o2
    ensures RemoveStale(store, date, keep, o1) == RemoveStale(store, date, keep, o2)
  {
    assert (set e | e in o1 && StoredName(date, e) != keep :: StoredName(date, e))
        == (set e | e in o2 && StoredName(date, e) != keep :: StoredName(date, e));
  }

  /** The success path of the upload handler: every other `{date}.{e}` is
      removed, then the bytes are written to `{date}.{ext}`. The clean-up
      visits `AllowedOrder`; by `CleanUpOrderIrrelevant` any other
      enumeration of the allow-set gives the same store. */
  function SavePhoto(store: Store, date: string, ext: string, data: Bytes): (r: Store)
    requires ext in Allowed
    ensures StoredName(date, ext) in r && r[StoredName(date, ext)] == data
    ensures forall e :: e in Allowed && StoredName(date, e) in r ==> e == ext
    ensures forall n :: !IsPhotoOf(n, date) ==> (n in r <==> n in store) && (n in store ==> r[n] == store[n])
  {
    var name := StoredName(date, ext);
    AllowedOrderIsAllowed();
    var r := RemoveStale(store, date, name, AllowedOrder)[name := data];
    forall e | e in Allowed && StoredName(date, e) in r ensures e == ext {
      AllowedShape(e);
      AllowedShape(ext);
      if StoredName(date, e) == name {
        StoredNameInjective(date, e, date, ext);
      }
    }
    r
  }

  /** `request.form.get(name, "")`: the submitted text, or "" when the
      field was not sent. */
  function FormText(field: Option<string>): (v: string)
    ensures field.None? ==> v == ""
    ensures field.Some? ==> v == field.value
  {
    match field
    case None => ""
    case Some(text) => text
  }

  /** The POST branch of `upload`. `dateField` is the form's `date` field
      (None when absent, read as ""), `photo` the form's `photo` file. */
  function Upload(store: Store, dateField: Option<string>, photo: Option<FileUpload>): (r: UploadResult)
    ensures r.outcome.InvalidDate? <==> !IsDateSyntax(Strip(FormText(dateField)))
    ensures r.outcome.MissingFile? <==>
              IsDateSyntax(Strip(FormText(dateField))) && (photo.None? || photo.value.filename == "")
    ensures r.outcome.UnsupportedType? <==>
              IsDateSyntax(Strip(FormText(dateField))) && photo.Some? && photo.value.filename != ""
              && !AllowedFile(photo.value.filename)
    ensures !r.outcome.InvalidDate? ==> r.outcome.date == Strip(FormText(dateField))
    ensures !r.outcome.Saved? ==> r.store == store
    ensures r.outcome.Saved? ==>
              && photo.Some?
              && Extension(photo.value.filename).Some?
              && r.outcome.name == StoredName(r.outcome.date, Lower(Extension(photo.value.filename).value))
              && IsPhotoOf(r.outcome.name, r.outcome.date)
              && r.outcome.name in r.store
              && r.store[r.outcome.name] == photo.value.data
    ensures r.outcome.Saved? ==>
              forall e :: e in Allowed && StoredName(r.outcome.date, e) in r.store
                          ==> StoredName(r.outcome.date, e) == r.outcome.name
    ensures r.outcome.Saved? ==>
              forall n :: !IsPhotoOf(n, r.outcome.date) ==>
                (n in r.store <==> n in store) && (n in store ==> r.store[n] == store[n])
  {
    var date := Strip(FormText(dateField));
    if !DateAccepted(FormText(dateField)) then
      UploadResult(InvalidDate, store)
    else if photo.None? || photo.value.filename == "" then
      UploadResult(MissingFile(date), store)
    else if !AllowedFile(photo.value.filename) then
      UploadResult(UnsupportedType(date), store)
    else
      ExtensionOfAllowedFile(photo.value.filename);
      var ext := Lower(Extension(photo.value.filename).value);
      var name := StoredName(date, ext);
      assert IsPhotoOf(name, date);
      UploadResult(Saved(date, name), SavePhoto(store, date, ext, photo.value.data))
  }

  /** A well-formed date with an accepted file name is saved under
      `{date}.{lower(ext)}`. */
  lemma UploadSavesAs(store: Store, date: string, photo: FileUpload, ext: string)
    requires IsDateSyntax(date)
    requires photo.filename != "" && Extension(photo.filename) == Some(ext) && Lower(ext) in Allowed
    ensures Upload(store, Some(date), Some(photo)).outcome == Saved(date, StoredName(date, Lower(ext)))
  {
    StripStripped(date);
  }

  /** A successful upload keeps the one-photo-per-date invariant. */
  lemma UploadKeepsOnePerDate(store: Store, dateField: Option<string>, photo: Option<FileUpload>)
    requires OnePerDate(store)
    ensures OnePerDate(Upload(store, dateField, photo).store)
  {
    var r := Upload(store, dateField, photo);
    if r.outcome.Saved? {
      var date := r.outcome.date;
      forall d, e1, e2 | e1 in Allowed && e2 in Allowed && StoredName(d, e1) in r.store && StoredName(d, e2) in r.store
        ensures e1 == e2
      {
        AllowedShape(e1);
        AllowedShape(e2);
        if d == date {
          StoredNameInjective(d, e1, d, e2);
        } else {
          forall e | e in Allowed ensures StoredName(d, e1) != StoredName(date, e) && StoredName(d, e2) != StoredName(date, e) {
            AllowedShape(e);
            if StoredName(d, e1) == StoredName(date, e) { StoredNameInjective(d, e1, date, e); }
            if StoredName(d, e2) == StoredName(date, e) { StoredNameInjective(d, e2, date, e); }
          }
          assert !IsPhotoOf(StoredName(d, e1), date) && !IsPhotoOf(StoredName(d, e2), date);
        }
      }
    }
  }

  /** Uploading for a date that already has a photo under another allowed
      extension leaves only the new file for that date. */
  lemma SecondUploadReplaces(store: Store, date: string, first: FileUpload, second: FileUpload)
    requires Upload(store, Some(date), Some(first)).outcome.Saved?
    requires Upload(Upload(store, Some(date), Some(first)).store, Some(date), Some(second)).outcome.Saved?
    ensures var r1 := Upload(store, Some(date), Some(first));
            var r2 := Upload(r1.store, Some(date), Some(second));
            && r2.outcome.name in r2.store
            && r2.store[r2.outcome.name] == second.data
            && (r1.outcome.name != r2.outcome.name ==> r1.outcome.name !in r2.store)
  {
    var r1 := Upload(store, Some(date), Some(first));
    var r2 := Upload(r1.store, Some(date), Some(second));
    var e :| e in Allowed && r1.outcome.name == StoredName(r1.outcome.date, e);
  }

  /** The loop of `find_existing_for_date` over an extension order: the
      first `{base}.{e}` that exists. */
  function FindExisting(store: Store, base: string, order: seq<string>): (r: Option<string>)
    ensures r.None? <==> forall e :: e in order ==> StoredName(base, e) !in store
    ensures r.Some? ==> r.value in store && exists e :: e in order && r.value == StoredName(base, e)
    ensures r.Some? ==>
              exists i :: 0 <= i < |order| && r.value == StoredName(base, order[i])
                          && forall j :: 0 <= j < i ==> StoredName(base, order[j]) !in store
  {
    if |order| == 0 then None
    else if StoredName(base, order[0]) in store then
      assert order[0] in order;
      Some(StoredName(base, order[0]))
    else
      var r := FindExisting(store, base, order[1..]);
      if r.Some? then
        var i :| 0 <= i < |order[1..]| && r.value == StoredName(base, order[1..][i])
                 && forall j :: 0 <= j < i ==> StoredName(base, order[1..][j]) !in store;
        assert forall j :: 0 <= j < i + 1 ==> StoredName(base, order[j]) !in store by {
          forall j | 0 <= j < i + 1 ensures StoredName(base, order[j]) !in store {
            if j > 0 {
              assert order[j] == order[1..][j - 1];
            }
          }
        }
        assert r.value == StoredName(base, order[i + 1]);
        r
      else
        r
  }

  /** An iteration order of the allow-set: Python's set order is
      unspecified, so the lookup is stated for every such order. */
  ghost predicate IsExtensionOrder(order: seq<string>) {
    forall e :: e in order <==> e in Allowed
  }

  /** `find_existing_for_date(d)`: some existing `{d}.{e}` with `e`
      allowed, or None when there is none. */
  function FindExistingForDate(store: Store, d: Date, order: seq<string>): (r: Option<string>)
    requires Renderable(d) && IsExtensionOrder(order)
    ensures r.None? <==> forall e :: e in Allowed ==> StoredName(FormatDate(d), e) !in store
    ensures r.Some? ==> r.value in store && IsPhotoOf(r.value, FormatDate(d))
    ensures r.Some? ==>
              exists i :: 0 <= i < |order| && r.value == StoredName(FormatDate(d), order[i])
                          && forall j :: 0 <= j < i ==> StoredName(FormatDate(d), order[j]) !in store
  {
    FindExisting(store, FormatDate(d), order)
  }

  /** While the invariant holds, the lookup does not depend on the set's
      iteration order. */
  lemma LookupOrderIrrelevant(store: Store, d: Date, o1: seq<string>, o2: seq<string>)
    requires OnePerDate(store)
    requires Renderable(d) && IsExtensionOrder(o1) && IsExtensionOrder(o2)
    ensures FindExistingForDate(store, d, o1) == FindExistingForDate(store, d, o2)
  {
    var r1, r2 := FindExistingForDate(store, d, o1), FindExistingForDate(store, d, o2);
    if r1.Some? && r2.Some? {
      var base := FormatDate(d);
      var e1 :| e1 in Allowed && r1.value == StoredName(base, e1);
      var e2 :| e2 in Allowed && r2.value == StoredName(base, e2);
      assert e1 == e2;
    }
  }

  /** When `name` is the only existing candidate, the lookup returns it. */
  lemma FindOnlyCandidate(store: Store, base: string, order: seq<string>, e: string)
    requires IsExtensionOrder(order) && e in Allowed && StoredName(base, e) in store
    requires forall e' :: e' in Allowed && StoredName(base, e') in store ==> StoredName(base, e') == StoredName(base, e)
    ensures FindExisting(store, base, order) == Some(StoredName(base, e))
  {
    assert e in order;
  }

  /** After a photo is saved for a date, the upload page's lookup for that
      date finds exactly the saved file, whatever the iteration order. */
  lemma LookupFindsUpload(store: Store, d: Date, photo: FileUpload, order: seq<string>)
    requires Renderable(d) && IsExtensionOrder(order)
    requires Upload(store, Some(FormatDate(d)), Some(photo)).outcome.Saved?
    ensures var r := Upload(store, Some(FormatDate(d)), Some(photo));
            FindExistingForDate(r.store, d, order) == Some(r.outcome.name)
  {
    var base := FormatDate(d);
    var r := Upload(store, Some(base), Some(photo));
    StripStripped(base);
    var e :| e in Allowed && r.outcome.name == StoredName(base, e);
    FindOnlyCandidate(r.store, base, order, e);
  }

  /** Uploads only ever add stored names of well-formed dates. */
  lemma UploadKeepsOnlyPhotos(store: Store, dateField: Option<string>, photo: Option<FileUpload>)
    requires OnlyPhotos(store)
    ensures OnlyPhotos(Upload(store, dateField, photo).store)
  {
    var r := Upload(store, dateField, photo);
    if r.outcome.Saved? {
      forall n | n in r.store
        ensures exists d, e :: IsDateSyntax(d) && e in Allowed && n == StoredName(d, e)
      {
        if IsPhotoOf(n, r.outcome.date) {
          var e :| e in Allowed && n == StoredName(r.outcome.date, e);
          assert IsDateSyntax(r.outcome.date);
        }
      }
    }
  }
}
