/**
 * Concrete cases of the rules: the extension validator, the date test,
 * `splitext`, one upload and one gallery listing.
 */
module Examples {
  import opened Wrappers
  import opened Text
  import opened Naming
  import opened PhotoStore
  import opened Gallery

  lemma NoDotRejected()
    ensures !AllowedFile("photo")
  {
  }

  lemma EmptyExtensionRejected()
    ensures !AllowedFile("photo.")
  {
    var n := "photo.";
    assert n[5] == '.' && n[6..] == "";
    assert Lower("") == "";
    AllowedFileAt(n, 5);
  }

  lemma OtherExtensionRejected()
    ensures !AllowedFile("photo.txt")
  {
    var n := "photo.txt";
    assert n[5] == '.' && n[6..] == "txt";
    assert Lower("txt") == "txt";
    AllowedFileAt(n, 5);
  }

  lemma UpperCaseAccepted()
    ensures AllowedFile("photo.JPG")
  {
    var n := "photo.JPG";
    assert n[5] == '.' && n[6..] == "JPG";
    assert Lower("JPG") == "jpg";
    AllowedFileAt(n, 5);
  }

  lemma OnlyLastExtensionCounts()
    ensures !AllowedFile("image.png.exe")
  {
    var n := "image.png.exe";
    assert n[9] == '.' && n[10..] == "exe";
    assert Lower("exe") == "exe";
    AllowedFileAt(n, 9);
  }

  lemma WrongGroupingRejected()
    ensures !DateAccepted("2024-1-5")
  {
    StripStripped("2024-1-5");
  }

  lemma WordsRejected()
    ensures !DateAccepted("not-a-date")
  {
    StripStripped("not-a-date");
  }

  lemma BlankRejected()
    ensures !DateAccepted("   ")
  {
    var s := "   ";
    assert IsSpace(s[0]) && IsSpace(s[1]) && IsSpace(s[2]);
    assert |Strip(s)| == 0;
  }

  lemma CalendarNotChecked()
    ensures DateAccepted("2024-13-40")
  {
    var s := "2024-13-40";
    assert IsDateSyntax(s);
    SyntaxAccepted(s);
  }

  lemma SurroundingSpaceStripped()
    ensures DateAccepted(" 2024-01-05\n")
  {
    var t := "2024-01-05";
    assert " 2024-01-05\n" == " " + t + "\n";
    assert IsDateSyntax(t);
    StripSurrounded(" ", t, "\n");
  }

  lemma SplitExtOfStoredName()
    ensures SplitExtRoot("2024-01-01.png") == "2024-01-01"
  {
    var d := "2024-01-01";
    assert IsDateSyntax(d);
    assert StoredName(d, "png") == "2024-01-01.png";
    SplitExtRootOfStoredName(d, "png");
  }

  lemma SplitExtKeepsLeadingDotName()
    ensures SplitExtRoot(".png") == ".png"
  {
  }

  lemma SplitExtInnerDots()
    ensures SplitExtRoot("a.b.png") == "a.b"
  {
    var p := "a.b.png";
    assert p[0] != '.' && forall j :: 0 <= j < 3 ==> p[j] != '/';
    assert ExtensionAt(p, 3);
  }

  lemma JanuaryPhoto()
    ensures IsImageName("2024-01-01.png") && SplitExtRoot("2024-01-01.png") == "2024-01-01"
  {
    var d := "2024-01-01";
    assert IsDateSyntax(d);
    assert StoredName(d, "png") == "2024-01-01.png";
    StoredNameIsImage(d, "png");
    SplitExtRootOfStoredName(d, "png");
  }

  lemma MarchPhoto()
    ensures IsImageName("2024-03-10.jpg") && SplitExtRoot("2024-03-10.jpg") == "2024-03-10"
  {
    var d := "2024-03-10";
    assert IsDateSyntax(d);
    assert StoredName(d, "jpg") == "2024-03-10.jpg";
    StoredNameIsImage(d, "jpg");
    SplitExtRootOfStoredName(d, "jpg");
  }

  lemma TextFileHidden()
    ensures !IsImageName("notes.txt")
  {
    TextFileRejected();
    ImageNameIffAllowedFile("notes.txt");
  }

  lemma TextFileRejected()
    ensures !AllowedFile("notes.txt")
  {
    var n := "notes.txt";
    assert n[5] == '.' && n[6..] == "txt";
    assert Lower("txt") == "txt";
    AllowedFileAt(n, 5);
  }

  lemma MarchAfterJanuary()
    ensures LexLe("2024-01-01", "2024-03-10") && !LexLe("2024-03-10", "2024-01-01")
  {
    var a, b := "2024-01-01", "2024-03-10";
    assert a == "2024-" + "01-01" && b == "2024-" + "03-10";
    LexLeConcat("2024-", "01-01", "2024-", "03-10");
    LexLeConcat("2024-", "03-10", "2024-", "01-01");
  }

  /** Two photos and a text file: the gallery shows the photos, newest
      first, whatever order the directory lists them in. */
  lemma GalleryExample(store: Store, listing: seq<string>)
    requires store.Keys == {"2024-01-01.png", "2024-03-10.jpg", "notes.txt"}
    requires Enumerates(listing, store)
    ensures Views(store, listing) == [Entry("2024-03-10.jpg", "2024-03-10"), Entry("2024-01-01.png", "2024-01-01")]
  {
    JanuaryPhoto();
    MarchPhoto();
    TextFileHidden();
    MarchAfterJanuary();
    GalleryOfTwoPhotos(store, listing, "2024-03-10.jpg", "2024-01-01.png", "notes.txt");
  }

  /** A store of two photos with distinct keys and one other file. */
  lemma GalleryOfTwoPhotos(store: Store, listing: seq<string>, a: string, b: string, other: string)
    requires store.Keys == {a, b, other}
    requires Enumerates(listing, store)
    requires IsImageName(a) && IsImageName(b) && !IsImageName(other) && a != b
    requires !LexLe(SplitExtRoot(a), SplitExtRoot(b))
    ensures Views(store, listing) == [EntryOf(a), EntryOf(b)]
  {
    ListingOfTwoPhotos(Views(store, listing), store.Keys, a, b, other, IsImageName, SplitExtRoot);
  }

  /** The listing argument with the filter and the key left abstract. */
  lemma ListingOfTwoPhotos(r: seq<Entry>, names: set<string>, a: string, b: string, other: string,
                           keep: string -> bool, key: string -> string)
    requires names == {a, b, other}
    requires keep(a) && keep(b) && !keep(other) && a != b
    requires !LexLe(key(a), key(b))
    requires forall i :: 0 <= i < |r| ==> r[i].name in names && keep(r[i].name) && r[i].date == key(r[i].name)
    requires forall n :: n in names && keep(n) ==> exists i :: 0 <= i < |r| && r[i].name == n
    requires UniqueNames(r) && SortedDesc(r)
    ensures r == [Entry(a, key(a)), Entry(b, key(b))]
  {
    var x, y := Entry(a, key(a)), Entry(b, key(b));
    var ix :| 0 <= ix < |r| && r[ix].name == a;
    var iy :| 0 <= iy < |r| && r[iy].name == b;
    TwoEntries(r, x, y);
  }

  /** Unique names drawn from two names: at most two entries. */
  lemma {:induction false} NamesInTwo(r: seq<Entry>, a: string, b: string)
    requires UniqueNames(r)
    requires forall i :: 0 <= i < |r| ==> r[i].name == a || r[i].name == b
    ensures |r| <= 2
  {
    if |r| > 0 {
      var rest := r[1..];
      assert forall i :: 0 <= i < |rest| ==> rest[i].name != r[0].name;
      if r[0].name == a {
        OneName(rest, b);
      } else {
        OneName(rest, a);
      }
    }
  }

  /** The name at `i`, or "" out of range: a total accessor, so that the
      proof below names the first two entries without indexing into a
      sequence the requires already rule out. */
  function NameAt(r: seq<Entry>, i: int): string {
    if 0 <= i < |r| then r[i].name else ""
  }

  lemma OneName(r: seq<Entry>, a: string)
    requires UniqueNames(r)
    requires forall i :: 0 <= i < |r| ==> r[i].name == a
    ensures |r| <= 1
  {
    assert |r| > 1 ==> NameAt(r, 0) == NameAt(r, 1);
  }

  /** A sorted gallery with unique names holding exactly two given entries,
      the first with the later key, lists them in that order. */
  lemma TwoEntries(r: seq<Entry>, x: Entry, y: Entry)
    requires UniqueNames(r) && SortedDesc(r)
    requires x.name != y.name && !LexLe(x.date, y.date)
    requires forall i :: 0 <= i < |r| ==> r[i] == x || r[i] == y
    requires x in r && y in r
    ensures r == [x, y]
  {
    var ix :| 0 <= ix < |r| && r[ix] == x;
    var iy :| 0 <= iy < |r| && r[iy] == y;
    assert |r| <= 2 by {
      NamesInTwo(r, x.name, y.name);
    }
    assert !(iy < ix);
  }
}
