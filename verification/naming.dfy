/**
 * File-name rules of the daily photo store (app.py lines 11-18, 44-47,
 * 59-60 and 99-101): the extension allow-set, the extension validator, the
 * date pattern, the stored name `{date}.{ext}`, and the gallery's suffix
 * filter and `os.path.splitext` date key.
 */
module Naming {
  import opened Wrappers
  import opened Text

  /** ALLOWED_EXTENSIONS. */
  const Allowed: set<string> := {"png", "jpg", "jpeg", "gif", "webp"}

  /** One enumeration of the allow-set. Python's set order is unspecified;
      the clean-up loop of the upload handler gives the same result for
      every enumeration. */
  const AllowedOrder: seq<string> := ["png", "jpg", "jpeg", "gif", "webp"]

  lemma AllowedOrderIsAllowed()
    ensures forall e :: e in AllowedOrder <==> e in Allowed
  {
  }

  /** Every allowed extension is non-empty lower-case text without '.' or '/'. */
  lemma AllowedShape(e: string)
    requires e in Allowed
    ensures |e| > 0 && '.' !in e && '/' !in e && Lower(e) == e
  {
  }

  /** `filename.rsplit(".", 1)[1]`: the text after the last '.', present
      exactly when the name contains a '.'. */
  function Extension(filename: string): (r: Option<string>)
    ensures r.None? <==> '.' !in filename
    ensures r.Some? ==> '.' !in r.value && EndsWith(filename, "." + r.value)
  {
    match RFind(filename, '.')
    case None => None
    case Some(k) =>
      assert filename[k..] == "." + filename[k + 1..];
      Some(filename[k + 1..])
  }

  /** `allowed_file`. An accepted name has a '.' and does not end with
      one: every allowed extension is non-empty. */
  function AllowedFile(filename: string): (ok: bool)
    ensures ok ==> '.' in filename && filename[|filename| - 1] != '.'
  {
    match Extension(filename)
    case None => false
    case Some(ext) =>
      if Lower(ext) in Allowed then
        AllowedShape(Lower(ext));
        assert filename[|filename| - 1] == ext[|ext| - 1];
        true
      else
        false
  }

  /** With its last '.' at `k`, a name is accepted exactly when the
      lower-cased text after `k` is an allowed extension. */
  lemma AllowedFileAt(filename: string, k: nat)
    requires k < |filename| && filename[k] == '.'
    requires forall i :: k < i < |filename| ==> filename[i] != '.'
    ensures AllowedFile(filename) <==> Lower(filename[k + 1..]) in Allowed
  {
    RFindAt(filename, '.', k);
  }

  /** `allowed_file(f)` holds exactly when `f` has a '.' and the
      lower-cased text after the last one is an allowed extension. */
  lemma AllowedFileIff(filename: string)
    ensures AllowedFile(filename) <==>
              exists k :: 0 <= k < |filename| && filename[k] == '.'
                          && '.' !in filename[k + 1..] && Lower(filename[k + 1..]) in Allowed
  {
    if AllowedFile(filename) {
      var k := RFind(filename, '.').value;
      NotInSuffix(filename, '.', k);
      assert filename[k] == '.' && '.' !in filename[k + 1..] && Lower(filename[k + 1..]) in Allowed;
    }
    if exists k :: 0 <= k < |filename| && filename[k] == '.'
                   && '.' !in filename[k + 1..] && Lower(filename[k + 1..]) in Allowed {
      var k :| 0 <= k < |filename| && filename[k] == '.'
               && '.' !in filename[k + 1..] && Lower(filename[k + 1..]) in Allowed;
      NotInSuffix(filename, '.', k);
      AllowedFileAt(filename, k);
    }
  }

  /** A name the validator accepts has an extension whose lower-cased
      form is allowed. */
  lemma ExtensionOfAllowedFile(filename: string)
    requires AllowedFile(filename)
    ensures Extension(filename).Some? && Lower(Extension(filename).value) in Allowed
  {
  }

  /** Exactly the shape `DDDD-DD-DD` with ASCII digits D. */
  predicate IsDateSyntax(s: string) {
    && |s| == 10
    && IsDigit(s[0]) && IsDigit(s[1]) && IsDigit(s[2]) && IsDigit(s[3])
    && s[4] == '-'
    && IsDigit(s[5]) && IsDigit(s[6])
    && s[7] == '-'
    && IsDigit(s[8]) && IsDigit(s[9])
  }

  /** `DATE_RE.match(s)` for `^\d{4}-\d{2}-\d{2}$`: Python's `$` also
      matches just before a single trailing line feed. */
  function DateReMatch(s: string): (m: bool)
    ensures IsDateSyntax(s) ==> m
    ensures m <==> exists t :: IsDateSyntax(t) && (s == t || s == t + "\n")
  {
    assert |s| == 11 ==> s == s[..10] + [s[10]];
    assert forall t :: s == t + "\n" ==> |t| == |s| - 1 && t == s[..|t|] && s[|t|] == '\n';
    IsDateSyntax(s) || (|s| == 11 && IsDateSyntax(s[..10]) && s[10] == '\n')
  }

  /** The date test of the upload handler: the field, stripped, must be
      non-empty and match DATE_RE. Because stripping removes any trailing
      line feed, this is exactly the `DDDD-DD-DD` shape. */
  function DateAccepted(field: string): (ok: bool)
    ensures ok <==> IsDateSyntax(Strip(field))
  {
    var t := Strip(field);
    t != "" && DateReMatch(t)
  }

  /** A field that already has the `DDDD-DD-DD` shape is accepted as is. */
  lemma SyntaxAccepted(s: string)
    requires IsDateSyntax(s)
    ensures DateAccepted(s) && Strip(s) == s
  {
    StripStripped(s);
  }

  /** The name a photo for `date` with extension `ext` is stored under. */
  function StoredName(date: string, ext: string): (name: string)
    ensures |name| == |date| + 1 + |ext|
    ensures name[..|date|] == date && name[|date|] == '.' && name[|date| + 1..] == ext
    ensures '.' !in ext ==> forall i :: |date| < i < |name| ==> name[i] != '.'
  {
    var name := date + "." + ext;
    assert forall i :: |date| < i < |name| ==> name[i] == ext[i - |date| - 1];
    name
  }

  /** A stored name splits back into its date and extension at its last '.'. */
  lemma StoredNameExtension(date: string, ext: string)
    requires '.' !in ext
    ensures RFind(StoredName(date, ext), '.') == Some(|date|)
    ensures Extension(StoredName(date, ext)) == Some(ext)
  {
    var n := StoredName(date, ext);
    forall i | |date| < i < |n| ensures n[i] != '.' {
      assert n[i] == ext[i - |date| - 1];
    }
    RFindAt(n, '.', |date|);
  }

  /** Distinct (date, extension) pairs never share a stored name. */
  lemma StoredNameInjective(d1: string, e1: string, d2: string, e2: string)
    requires '.' !in e1 && '.' !in e2
    requires StoredName(d1, e1) == StoredName(d2, e2)
    ensures d1 == d2 && e1 == e2
  {
    StoredNameExtension(d1, e1);
    StoredNameExtension(d2, e2);
    assert |d1| == |d2|;
    assert d1 == StoredName(d1, e1)[..|d1|];
  }

  /** A name made of a stem, a '.' and a '.'-free tail is judged by the
      tail alone, whatever the stem holds. */
  lemma AllowedFileOfSplit(stem: string, ext: string)
    requires '.' !in ext
    ensures AllowedFile(stem + "." + ext) <==> Lower(ext) in Allowed
  {
    StoredNameExtension(stem, ext);
  }

  /** A stored name for an allowed extension passes the extension validator. */
  lemma StoredNameAllowed(date: string, ext: string)
    requires ext in Allowed
    ensures AllowedFile(StoredName(date, ext))
  {
    AllowedShape(ext);
    StoredNameExtension(date, ext);
  }

  /** The gallery filter: the lower-cased name ends with `.{ext}` for some
      allowed extension. */
  function IsImageName(name: string): (ok: bool)
    ensures ok ==> '.' in name && name[|name| - 1] != '.'
  {
    SuffixHasDot(name);
    exists e :: e in Allowed && EndsWith(Lower(name), "." + e)
  }

  /** A name ending, up to case, in `.{e}` for an allowed `e` has a '.' and
      does not end with one. */
  lemma SuffixHasDot(name: string)
    ensures (exists e :: e in Allowed && EndsWith(Lower(name), "." + e))
            ==> '.' in name && name[|name| - 1] != '.'
  {
    if exists e :: e in Allowed && EndsWith(Lower(name), "." + e) {
      var e :| e in Allowed && EndsWith(Lower(name), "." + e);
      AllowedShape(e);
      LowerEndsWithDot(name, e);
    }
  }

  /** A name whose lower-cased form ends with `.{e}`, where `e` has no
      '.', has extension `e` up to case. */
  lemma ExtensionOfSuffix(name: string, e: string)
    requires '.' !in e && EndsWith(Lower(name), "." + e)
    ensures Extension(name).Some? && Lower(Extension(name).value) == e
  {
    LowerEndsWithDot(name, e);
    RFindAt(name, '.', |name| - |e| - 1);
  }

  /** Every name the gallery filter keeps passes the upload validator. */
  lemma ImageNameIsAllowedFile(name: string)
    requires IsImageName(name)
    ensures AllowedFile(name)
  {
    var e :| e in Allowed && EndsWith(Lower(name), "." + e);
    AllowedShape(e);
    ExtensionOfSuffix(name, e);
  }

  /** A name whose text after a '.' lower-cases to an allowed extension
      passes the gallery filter. */
  lemma ExtensionIsImage(name: string, k: nat)
    requires k < |name| && name[k] == '.' && Lower(name[k + 1..]) in Allowed
    ensures IsImageName(name)
  {
    var low := Lower(name);
    var e := Lower(name[k + 1..]);
    LowerSlice(name, k + 1, |name|);
    assert low[k..] == [low[k]] + low[k + 1..];
    assert EndsWith(low, "." + e);
  }

  /** Every name the upload validator accepts passes the gallery filter. */
  lemma AllowedFileIsImageName(name: string)
    requires AllowedFile(name)
    ensures IsImageName(name)
  {
    AllowedFileIff(name);
    var k :| 0 <= k < |name| && name[k] == '.'
             && '.' !in name[k + 1..] && Lower(name[k + 1..]) in Allowed;
    ExtensionIsImage(name, k);
  }

  /** The gallery filter and the upload validator accept the same names. */
  lemma ImageNameIffAllowedFile(name: string)
    ensures IsImageName(name) <==> AllowedFile(name)
  {
    if IsImageName(name) {
      ImageNameIsAllowedFile(name);
    }
    if AllowedFile(name) {
      AllowedFileIsImageName(name);
    }
  }

  /** In `os.path.splitext` (POSIX): `k` is the last '.', no '/' follows it,
      and the last path component has some non-'.' character before it. */
  predicate ExtensionAt(p: string, k: int) {
    && 0 <= k < |p| && p[k] == '.'
    && (forall j :: k < j < |p| ==> p[j] != '.' && p[j] != '/')
    && exists i :: 0 <= i < k && p[i] != '.' && forall j :: i <= j < k ==> p[j] != '/'
  }

  /** `os.path.splitext(p)[0]` (POSIX): the name without its extension; a
      name whose last component is dots up to its only '.' (".png") keeps
      its whole text. */
  function SplitExtRoot(p: string): (root: string)
    ensures root != p ==> |root| < |p| && root == p[..|root|] && ExtensionAt(p, |root|)
    ensures forall k :: ExtensionAt(p, k) ==> root == p[..k]
  {
    var sepIndex: int := match RFind(p, '/') case None => -1 case Some(s) => s;
    match RFind(p, '.')
    case None => p
    case Some(dot) =>
      if dot > sepIndex && exists i :: sepIndex + 1 <= i < dot && p[i] != '.' then
        var i :| sepIndex + 1 <= i < dot && p[i] != '.';
        assert forall j :: i <= j < dot ==> p[j] != '/';
        assert ExtensionAt(p, dot);
        p[..dot]
      else
        p
  }

  /** The gallery's date key of a stored name is the date it was stored for. */
  lemma SplitExtRootOfStoredName(date: string, ext: string)
    requires IsDateSyntax(date) && ext in Allowed
    ensures SplitExtRoot(StoredName(date, ext)) == date
  {
    AllowedShape(ext);
    var n := StoredName(date, ext);
    forall j | |date| < j < |n| ensures n[j] != '.' && n[j] != '/' {
      assert n[j] == ext[j - |date| - 1];
    }
    assert n[0] == date[0];
    assert ExtensionAt(n, |date|);
  }

  /** Stored names pass the gallery filter. */
  lemma StoredNameIsImage(date: string, ext: string)
    requires ext in Allowed
    ensures IsImageName(StoredName(date, ext))
  {
    StoredNameAllowed(date, ext);
    ImageNameIffAllowedFile(StoredName(date, ext));
  }
}
