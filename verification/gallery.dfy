/**
 * The gallery listing of `views` (app.py lines 94-106): keep the names with
 * an allowed suffix, key each by its `splitext` root, and sort by that key
 * in descending order with Python's stable sort.
 */
module Gallery {
  import opened Wrappers
  import opened Text
  import opened Naming
  import opened PhotoStore

  /** One gallery item: the stored file name and its date key. */
  datatype Entry = Entry(name: string, date: string)

  /** The `{"name", "date"}` record of the listing loop: the key is the
      name with its extension, if any, cut off. */
  function EntryOf(name: string): (x: Entry)
    ensures x.name == name
    ensures |x.date| <= |name| && x.date == name[..|x.date|]
    ensures x.date != name ==> ExtensionAt(name, |x.date|)
    ensures forall k :: ExtensionAt(name, k) ==> x.date == name[..k]
  {
    Entry(name, SplitExtRoot(name))
  }

  predicate DistinctNames(s: seq<string>) {
    forall i, j :: 0 <= i < j < |s| ==> s[i] != s[j]
  }

  /** `listing` is a directory listing of `store`: every file once, in
      whatever order the file system returns them. */
  ghost predicate Enumerates(listing: seq<string>, store: Store) {
    DistinctNames(listing) && forall n :: n in listing <==> n in store
  }

  /** The collecting loop: image names in listing order, with their keys. */
  function Collect(listing: seq<string>): (r: seq<Entry>)
    ensures forall x :: x in r <==> x.name in listing && IsImageName(x.name) && x == EntryOf(x.name)
  {
    if |listing| == 0 then []
    else
      var rest := Collect(listing[1..]);
      assert listing == [listing[0]] + listing[1..];
      if IsImageName(listing[0]) then [EntryOf(listing[0])] + rest else rest
  }

  /** The loop appends in listing order: collecting two stretches of a
      listing one after the other gives the two collections concatenated. */
  lemma {:induction false} CollectAppend(a: seq<string>, b: seq<string>)
    ensures Collect(a + b) == Collect(a) + Collect(b)
  {
    if |a| == 0 {
      assert a + b == b;
    } else {
      assert (a + b)[1..] == a[1..] + b;
      CollectAppend(a[1..], b);
    }
  }

  /** A listing without repeats collects entries without repeated names. */
  lemma {:induction false} CollectUnique(listing: seq<string>)
    requires DistinctNames(listing)
    ensures UniqueNames(Collect(listing))
  {
    if |listing| > 0 {
      CollectUnique(listing[1..]);
      var rest := Collect(listing[1..]);
      if IsImageName(listing[0]) {
        forall j | 0 <= j < |rest| ensures rest[j].name != listing[0] {
          assert rest[j] in rest;
          var k :| 0 <= k < |listing[1..]| && listing[1..][k] == rest[j].name;
          assert listing[k + 1] == rest[j].name;
        }
      }
    }
  }

  /** No two entries share a file name. */
  predicate UniqueNames(s: seq<Entry>) {
    forall i, j :: 0 <= i < j < |s| ==> s[i].name != s[j].name
  }

  /** Non-increasing by date key. */
  predicate SortedDesc(s: seq<Entry>) {
    forall i, j :: 0 <= i < j < |s| ==> LexLe(s[j].date, s[i].date)
  }

  /** Places `x` after every entry whose key is at least its own, which
      keeps equal keys in arrival order. */
  function InsertDesc(x: Entry, s: seq<Entry>): (r: seq<Entry>)
    requires SortedDesc(s)
    ensures SortedDesc(r)
    ensures multiset(r) == multiset(s) + multiset{x}
  {
    if |s| == 0 then [x]
    else if LexLe(x.date, s[0].date) then
      var tail := InsertDesc(x, s[1..]);
      HeadAboveInsertion(s, x, tail);
      [s[0]] + tail
    else
      NewHead(x, s);
      [x] + s
  }

  /** A head at or above everything in a sorted tail keeps it sorted. */
  lemma SortedCons(h: Entry, t: seq<Entry>)
    requires SortedDesc(t)
    requires forall j :: 0 <= j < |t| ==> LexLe(t[j].date, h.date)
    ensures SortedDesc([h] + t)
  {
    var r := [h] + t;
    forall i, j | 0 <= i < j < |r| ensures LexLe(r[j].date, r[i].date) {
      assert r[j] == t[j - 1];
      if i > 0 {
        assert r[i] == t[i - 1];
      }
    }
  }

  /** The head of `s` stays in front when `x` goes into the rest. */
  lemma HeadAboveInsertion(s: seq<Entry>, x: Entry, tail: seq<Entry>)
    requires |s| > 0 && SortedDesc(s) && LexLe(x.date, s[0].date)
    requires SortedDesc(tail) && multiset(tail) == multiset(s[1..]) + multiset{x}
    ensures SortedDesc([s[0]] + tail)
    ensures multiset([s[0]] + tail) == multiset(s) + multiset{x}
  {
    assert s == [s[0]] + s[1..];
    forall j | 0 <= j < |tail| ensures LexLe(tail[j].date, s[0].date) {
      assert tail[j] in multiset(tail);
      if tail[j] != x {
        assert tail[j] in multiset(s[1..]);
        var k :| 0 <= k < |s[1..]| && s[1..][k] == tail[j];
        assert s[k + 1] == tail[j];
      }
    }
    SortedCons(s[0], tail);
  }

  /** An entry with a key above the head of `s` goes in front. */
  lemma NewHead(x: Entry, s: seq<Entry>)
    requires |s| > 0 && SortedDesc(s) && !LexLe(x.date, s[0].date)
    ensures SortedDesc([x] + s)
  {
    LexLeTotal(x.date, s[0].date);
    forall j | 0 <= j < |s| ensures LexLe(s[j].date, x.date) {
      if j > 0 {
        LexLeTrans(s[j].date, s[0].date, x.date);
      }
    }
    SortedCons(x, s);
  }

  /** `sort(key=date, reverse=True)`: insertion sort, stable. */
  function SortDesc(s: seq<Entry>): (r: seq<Entry>)
    ensures SortedDesc(r)
    ensures multiset(r) == multiset(s)
  {
    if |s| == 0 then []
    else
      assert s == s[..|s| - 1] + [s[|s| - 1]];
      InsertDesc(s[|s| - 1], SortDesc(s[..|s| - 1]))
  }

  lemma {:induction false} InsertDescUnique(x: Entry, s: seq<Entry>)
    requires SortedDesc(s) && UniqueNames(s)
    requires forall y :: y in s ==> y.name != x.name
    ensures UniqueNames(InsertDesc(x, s))
  {
    if |s| > 0 && LexLe(x.date, s[0].date) {
      var tail := InsertDesc(x, s[1..]);
      InsertDescUnique(x, s[1..]);
      forall j | 0 <= j < |tail| ensures s[0].name != tail[j].name {
        assert tail[j] in multiset(tail);
        if tail[j] != x {
          assert tail[j] in s[1..];
          var k :| 0 <= k < |s[1..]| && s[1..][k] == tail[j];
          assert s[k + 1] == tail[j];
        }
      }
    }
  }

  lemma {:induction false} SortDescUnique(s: seq<Entry>)
    requires UniqueNames(s)
    ensures UniqueNames(SortDesc(s))
  {
    if |s| > 0 {
      var init, last := s[..|s| - 1], s[|s| - 1];
      SortDescUnique(init);
      var sorted := SortDesc(init);
      forall y | y in sorted ensures y.name != last.name {
        assert y in multiset(init);
        var k :| 0 <= k < |init| && init[k] == y;
        assert s[k] == y;
      }
      InsertDescUnique(last, sorted);
    }
  }

  /** The entries of `s` whose key is `key`, in order. */
  function WithKey(s: seq<Entry>, key: string): (r: seq<Entry>)
    ensures |r| <= |s|
  {
    if |s| == 0 then []
    else (if s[0].date == key then [s[0]] else []) + WithKey(s[1..], key)
  }

  lemma {:induction false} WithKeyAppend(a: seq<Entry>, b: seq<Entry>, key: string)
    ensures WithKey(a + b, key) == WithKey(a, key) + WithKey(b, key)
  {
    if |a| > 0 {
      assert (a + b)[1..] == a[1..] + b;
      WithKeyAppend(a[1..], b, key);
    } else {
      assert a + b == b;
    }
  }

  /** In a descending run, nothing after the head has a key above the head. */
  lemma {:induction false} NoKeyAboveHead(s: seq<Entry>, key: string)
    requires SortedDesc(s) && |s| > 0
    requires LexLe(s[0].date, key) && s[0].date != key
    ensures WithKey(s, key) == []
  {
    if |s| > 1 {
      if s[1].date == key {
        LexLeAntisym(s[0].date, key);
      }
      LexLeTrans(s[1].date, s[0].date, key);
      NoKeyAboveHead(s[1..], key);
    }
  }

  lemma WithKeySingle(x: Entry, key: string)
    ensures WithKey([x], key) == if x.date == key then [x] else []
  {
    assert [x][1..] == [];
  }

  /** One step of the insertion: an entry placed in front of both sides. */
  lemma WithKeyCons(h: Entry, tail: seq<Entry>, rest: seq<Entry>, x: Entry, key: string)
    requires WithKey(tail, key) == WithKey(rest, key) + WithKey([x], key)
    ensures WithKey([h] + tail, key) == WithKey([h] + rest, key) + WithKey([x], key)
  {
    WithKeyAppend([h], tail, key);
    WithKeyAppend([h], rest, key);
  }

  /** Insertion puts `x` after every entry with its own key. */
  lemma {:induction false} InsertDescStable(x: Entry, s: seq<Entry>, key: string)
    requires SortedDesc(s)
    ensures WithKey(InsertDesc(x, s), key) == WithKey(s, key) + WithKey([x], key)
  {
    WithKeySingle(x, key);
    if |s| == 0 {
      assert InsertDesc(x, s) == [x];
    } else if LexLe(x.date, s[0].date) {
      InsertDescStable(x, s[1..], key);
      WithKeyCons(s[0], InsertDesc(x, s[1..]), s[1..], x, key);
      assert s == [s[0]] + s[1..];
    } else {
      WithKeyAppend([x], s, key);
      if x.date == key {
        LexLeTotal(x.date, s[0].date);
        NoKeyAboveHead(s, key);
      }
    }
  }

  /** The sort is stable: for every key, the entries with that key keep
      their relative order. */
  lemma {:induction false} SortDescStable(s: seq<Entry>, key: string)
    ensures WithKey(SortDesc(s), key) == WithKey(s, key)
  {
    if |s| > 0 {
      var init, last := s[..|s| - 1], s[|s| - 1];
      SortDescStable(init, key);
      InsertDescStable(last, SortDesc(init), key);
      assert s == init + [last];
      WithKeyAppend(init, [last], key);
    }
  }

  /** `views`: the gallery for a directory listed as `listing`. */
  function Views(store: Store, listing: seq<string>): (r: seq<Entry>)
    requires Enumerates(listing, store)
    ensures forall i :: 0 <= i < |r| ==>
              r[i].name in store && IsImageName(r[i].name) && r[i].date == SplitExtRoot(r[i].name)
    ensures forall n :: n in store && IsImageName(n) ==> exists i :: 0 <= i < |r| && r[i].name == n
    ensures UniqueNames(r)
    ensures SortedDesc(r)
  {
    var collected := Collect(listing);
    CollectUnique(listing);
    var r := SortDesc(collected);
    SortDescUnique(collected);
    forall i | 0 <= i < |r|
      ensures r[i].name in store && IsImageName(r[i].name) && r[i].date == SplitExtRoot(r[i].name)
    {
      assert r[i] in multiset(collected);
    }
    forall n | n in store && IsImageName(n) ensures exists i :: 0 <= i < |r| && r[i].name == n {
      assert EntryOf(n) in collected;
      assert EntryOf(n) in multiset(r);
    }
    r
  }

  /** Files with the same date key appear in the order the directory
      listing returned them. */
  lemma ViewsStable(store: Store, listing: seq<string>, key: string)
    requires Enumerates(listing, store)
    ensures WithKey(Views(store, listing), key) == WithKey(Collect(listing), key)
  {
    SortDescStable(Collect(listing), key);
  }

  /** After a successful upload the gallery shows the new file under the
      uploaded date. */
  lemma GalleryShowsUpload(store: Store, dateField: Option<string>, photo: Option<FileUpload>, listing: seq<string>)
    requires Upload(store, dateField, photo).outcome.Saved?
    requires Enumerates(listing, Upload(store, dateField, photo).store)
    ensures var r := Upload(store, dateField, photo);
            Entry(r.outcome.name, r.outcome.date) in Views(r.store, listing)
  {
    var r := Upload(store, dateField, photo);
    var e :| e in Allowed && r.outcome.name == StoredName(r.outcome.date, e);
    StoredNameIsImage(r.outcome.date, e);
    SplitExtRootOfStoredName(r.outcome.date, e);
    var v := Views(r.store, listing);
    var i :| 0 <= i < |v| && v[i].name == r.outcome.name;
  }

  /** Two stored names of well-formed dates with the same gallery key are
      the same file when the store keeps one photo per date. */
  lemma SameKeySameName(store: Store, a: string, b: string)
    requires OnlyPhotos(store) && OnePerDate(store)
    requires a in store && b in store
    ensures SplitExtRoot(a) == SplitExtRoot(b) ==> a == b
  {
    var da, ea :| IsDateSyntax(da) && ea in Allowed && a == StoredName(da, ea);
    var db, eb :| IsDateSyntax(db) && eb in Allowed && b == StoredName(db, eb);
    SplitExtRootOfStoredName(da, ea);
    SplitExtRootOfStoredName(db, eb);
  }

  /** Entries of distinct stored files of a one-per-date store have
      distinct keys. */
  lemma DistinctKeys(store: Store, r: seq<Entry>)
    requires OnlyPhotos(store) && OnePerDate(store)
    requires forall i :: 0 <= i < |r| ==> r[i].name in store && r[i].date == SplitExtRoot(r[i].name)
    requires UniqueNames(r)
    ensures forall i, j :: 0 <= i < j < |r| ==> r[i].date != r[j].date
  {
    forall i, j | 0 <= i < j < |r| ensures r[i].date != r[j].date {
      SameKeySameName(store, r[i].name, r[j].name);
    }
  }

  /** A store built by uploads shows at most one gallery entry per date,
      newest first. */
  lemma GalleryOnePerDate(store: Store, listing: seq<string>)
    requires OnlyPhotos(store) && OnePerDate(store)
    requires Enumerates(listing, store)
    ensures var r := Views(store, listing);
            forall i, j :: 0 <= i < j < |r| ==> r[i].date != r[j].date
  {
    DistinctKeys(store, Views(store, listing));
  }
}
