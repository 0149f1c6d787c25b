/** The exporters of `comix/exporter.py`: each decrypted page archive is
    extracted into the output directory, its images are renamed to
    `{release} - p{NNN}{ext}` with a running counter, and the CBZ and EPUB
    exporters then move the images into an archive (the EPUB exporter also
    writing one XHTML page per image).

    The directories are sets of relative paths (files only), the page
    archive is its list of entries, and the output archive is the list of
    entries written to it. One class stands for the three exporter classes;
    its `kind` says which one it is. */
module Exporter {
  import opened Wrappers
  import opened Bytes
  import opened Models

  // ------------------------------------------------------- ExporterType

  datatype ExporterType = Raw | Cbz | Epub

  /** The enum member's name. */
  function TypeName(t: ExporterType): string
  {
    match t
    case Raw => "raw"
    case Cbz => "cbz"
    case Epub => "epub"
  }

  /** `ExporterType.from_choice`: `cbz` and `epub` in any letter case, and
      anything else is raw. */
  function FromChoice(ext: string): (t: ExporterType)
    ensures t == Cbz <==> Lower(ext) == "cbz"
    ensures t == Epub <==> Lower(ext) == "epub"
  {
    var e := Lower(ext);
    if e == "cbz" then Cbz else if e == "epub" then Epub else Raw
  }

  /** Every type is chosen by its own name. */
  lemma FromChoiceName(t: ExporterType)
    ensures FromChoice(TypeName(t)) == t
  {
    match t
    case Raw => assert Lower("raw") == "raw";
    case Cbz => assert Lower("cbz") == "cbz";
    case Epub => assert Lower("epub") == "epub";
  }

  /** The choice ignores letter case. */
  lemma FromChoiceIgnoresCase(ext: string)
    ensures FromChoice(Upper(ext)) == FromChoice(ext)
  {
    assert Lower(Upper(ext)) == Lower(ext);
  }

  /** The `mode` of `exporter_factory`: a name or a type. */
  datatype Mode = Named(name: string) | Typed(t: ExporterType)

  /** The type `exporter_factory` builds for `mode`. */
  function ModeType(mode: Mode): (t: ExporterType)
    ensures mode.Typed? ==> t == mode.t
    ensures mode.Named? ==> t == FromChoice(mode.name)
  {
    match mode
    case Named(name) => FromChoice(name)
    case Typed(t) => t
  }

  /** A name and its type select the same exporter. */
  lemma ModeTypeAgrees(t: ExporterType)
    ensures ModeType(Named(TypeName(t))) == ModeType(Typed(t))
  {
    FromChoiceName(t);
  }

  // -------------------------------------------------------------- paths

  /** The index of the last `c` in `p`, or -1. */
  function LastIndex(p: string, c: char): (r: int)
    ensures -1 <= r < |p|
    ensures r >= 0 ==> p[r] == c
    ensures forall k :: r < k < |p| ==> p[k] != c
  {
    if |p| == 0 then -1
    else if p[|p| - 1] == c then |p| - 1
    else LastIndex(p[..|p| - 1], c)
  }

  /** `LastIndex` is the only index with its two properties. */
  lemma LastIndexUnique(p: string, c: char, r: int)
    requires -1 <= r < |p| && (r >= 0 ==> p[r] == c)
    requires forall k :: r < k < |p| ==> p[k] != c
    ensures LastIndex(p, c) == r
  {
  }

  /** The last `c` of a suffix is the last `c` of the whole, shifted. */
  lemma LastIndexOfSuffix(p: string, c: char, i: nat)
    requires i <= |p|
    ensures LastIndex(p[i..], c) == if LastIndex(p, c) >= i then LastIndex(p, c) - i else -1
  {
    var r := if LastIndex(p, c) >= i then LastIndex(p, c) - i else -1;
    forall k | r < k < |p[i..]| ensures p[i..][k] != c {
      assert p[i..][k] == p[i + k];
    }
    LastIndexUnique(p[i..], c, r);
  }

  /** Whether `p[i..j]` is made of dots only. */
  predicate AllDots(p: string, i: int, j: int)
    requires 0 <= i <= j <= |p|
    decreases j - i
  {
    i == j || (p[i] == '.' && AllDots(p, i + 1, j))
  }

  /** The dots test reads the same in a suffix of the path. */
  lemma {:induction false} AllDotsShift(p: string, off: nat, i: nat, j: nat)
    requires off <= |p| && i <= j <= |p| - off
    ensures AllDots(p[off..], i, j) == AllDots(p, off + i, off + j)
    decreases j - i
  {
    if i < j {
      assert p[off..][i] == p[off + i];
      AllDotsShift(p, off, i + 1, j);
    }
  }

  /** POSIX `os.path.splitext`: the extension runs from the last dot, when
      that dot comes after the last slash and the part of the name before
      it is not only dots; otherwise it is empty. */
  function Splitext(p: string): (r: (string, string))
    ensures r.0 + r.1 == p
    ensures r.1 != [] ==> r.1[0] == '.'
  {
    var sep, dot := LastIndex(p, '/'), LastIndex(p, '.');
    if dot > sep && !AllDots(p, sep + 1, dot) then
      assert p[..dot] + p[dot..] == p;
      (p[..dot], p[dot..])
    else (p, [])
  }

  function Ext(p: string): string
  {
    Splitext(p).1
  }

  /** POSIX `os.path.basename`: what follows the last slash. */
  function Basename(p: string): (b: string)
    ensures forall k :: 0 <= k < |b| ==> b[k] != '/'
    ensures |b| <= |p| && p[|p| - |b|..] == b
  {
    p[LastIndex(p, '/') + 1..]
  }

  /** A path and its last component have the same extension, so selecting
      by the entry's base name and renaming by its full path agree. */
  lemma ExtOfBasename(p: string)
    ensures Ext(Basename(p)) == Ext(p)
  {
    var sep, dot := LastIndex(p, '/'), LastIndex(p, '.');
    var b := p[sep + 1..];
    assert Basename(p) == b;
    LastIndexOfSuffix(p, '/', sep + 1);
    LastIndexOfSuffix(p, '.', sep + 1);
    ExtOfSuffix(p, b, sep, dot);
  }

  lemma ExtOfSuffix(p: string, b: string, sep: int, dot: int)
    requires sep == LastIndex(p, '/') && dot == LastIndex(p, '.')
    requires b == p[sep + 1..]
    requires LastIndex(b, '/') == -1
    requires LastIndex(b, '.') == if dot > sep then dot - (sep + 1) else -1
    ensures Ext(b) == Ext(p)
  {
    if dot > sep {
      var d := dot - (sep + 1);
      AllDotsShift(p, sep + 1, 0, d);
      assert b[d..] == p[dot..];
      ExtAt(b, -1, d);
      ExtAt(p, sep, dot);
    } else {
      ExtAt(b, -1, -1);
      ExtAt(p, sep, dot);
    }
  }

  /** The extension read off the last slash and the last dot. */
  lemma ExtAt(p: string, sep: int, dot: int)
    requires sep == LastIndex(p, '/') && dot == LastIndex(p, '.')
    ensures Ext(p) == if dot > sep && !AllDots(p, sep + 1, dot) then p[dot..] else []
  {
  }

  /** `VALID_IMAGES`. */
  const ValidImages: seq<string> := [".jpg", ".jpeg", "jpg", "jpeg", ".png", "png"]

  /** An extension starts with a dot, so the dotless members of
      `VALID_IMAGES` never match. */
  lemma DotlessNeverValid(p: string)
    requires Ext(p) in ValidImages
    ensures Ext(p) == ".jpg" || Ext(p) == ".jpeg" || Ext(p) == ".png"
  {
    var e := Ext(p);
    assert e != [] && e[0] == '.';
  }

  /** Matching is case-sensitive: an upper-case extension is not valid. */
  lemma UpperCaseNotValid()
    ensures Ext("page.JPG") !in ValidImages
  {
    var p := "page.JPG";
    LastIndexUnique(p, '.', 4);
    LastIndexUnique(p, '/', -1);
    assert !AllDots(p, 0, 4) by {
      assert p[0] == 'p';
    }
    assert Ext(p) == p[4..] == ".JPG";
  }

  // ------------------------------------------------- selecting images

  /** An entry of the decrypted page archive. */
  datatype ZipEntry = ZipEntry(filename: string, isDir: bool)

  predicate IsImageEntry(e: ZipEntry)
  {
    !e.isDir && Ext(Basename(e.filename)) in ValidImages
  }

  /** The file names of the entries `keep` accepts, in archive order. */
  function Select(entries: seq<ZipEntry>, keep: ZipEntry -> bool): (r: seq<string>)
    ensures |r| <= |entries|
  {
    if entries == [] then []
    else
      var last := entries[|entries| - 1];
      Select(entries[..|entries| - 1], keep) + (if keep(last) then [last.filename] else [])
  }

  /** The file names of the image entries, in archive order. */
  function SelectImages(entries: seq<ZipEntry>): seq<string>
  {
    Select(entries, IsImageEntry)
  }

  /** Every accepted entry's name is selected. */
  lemma {:induction false} SelectComplete(entries: seq<ZipEntry>, keep: ZipEntry -> bool, k: nat)
    requires k < |entries| && keep(entries[k])
    ensures entries[k].filename in Select(entries, keep)
  {
    var n := |entries| - 1;
    if k < n {
      assert entries[..n][k] == entries[k];
      SelectComplete(entries[..n], keep, k);
    }
  }

  /** Only names of accepted entries are selected. */
  lemma {:induction false} SelectSound(entries: seq<ZipEntry>, keep: ZipEntry -> bool, x: string)
    requires x in Select(entries, keep)
    ensures exists k :: 0 <= k < |entries| && keep(entries[k]) && entries[k].filename == x
  {
    var n := |entries| - 1;
    if x in Select(entries[..n], keep) {
      SelectSound(entries[..n], keep, x);
      var k :| 0 <= k < n && keep(entries[..n][k]) && entries[..n][k].filename == x;
      assert entries[k] == entries[..n][k];
    }
  }

  /** A name is selected exactly when some image entry carries it. */
  lemma SelectImagesMembers(entries: seq<ZipEntry>, x: string)
    ensures x in SelectImages(entries) <==>
              exists k :: 0 <= k < |entries| && IsImageEntry(entries[k]) && entries[k].filename == x
  {
    if x in SelectImages(entries) {
      SelectSound(entries, IsImageEntry, x);
    }
    if exists k :: 0 <= k < |entries| && IsImageEntry(entries[k]) && entries[k].filename == x {
      var k :| 0 <= k < |entries| && IsImageEntry(entries[k]) && entries[k].filename == x;
      SelectComplete(entries, IsImageEntry, k);
    }
  }

  /** Selection keeps archive order: selecting from two runs of entries is
      selecting from each in turn. */
  lemma {:induction false} SelectConcat(a: seq<ZipEntry>, b: seq<ZipEntry>, keep: ZipEntry -> bool)
    ensures Select(a + b, keep) == Select(a, keep) + Select(b, keep)
    decreases |b|
  {
    if b == [] {
      assert a + b == a;
    } else {
      var init := b[..|b| - 1];
      assert (a + b)[..|a + b| - 1] == a + init;
      SelectConcat(a, init, keep);
    }
  }

  /** The files `extractall` writes: every entry that is not a directory. */
  function ExtractedFiles(entries: seq<ZipEntry>): (r: set<string>)
    ensures forall k :: 0 <= k < |entries| && !entries[k].isDir ==> entries[k].filename in r
    ensures forall f :: f in r ==> exists k :: 0 <= k < |entries| && !entries[k].isDir && entries[k].filename == f
  {
    set k | 0 <= k < |entries| && !entries[k].isDir :: entries[k].filename
  }

  // -------------------------------------------------------- page names

  /** `f"{release_name} - p{count:03d}{ext}"`. */
  function PageName(release: string, count: int, ext: string): string
  {
    release + " - p" + FormatZeroPadded(count, 3) + ext
  }

  /** The names given to `imgs` when the counter starts at `start`. */
  function PageNames(release: string, start: int, imgs: seq<string>): (r: seq<string>)
    ensures |r| == |imgs|
    ensures forall k :: 0 <= k < |imgs| ==> r[k] == PageName(release, start + k, Ext(imgs[k]))
  {
    seq(|imgs|, k requires 0 <= k < |imgs| => PageName(release, start + k, Ext(imgs[k])))
  }

  /** Digits followed by an extension split in one way only. */
  lemma DigitsThenExt(d1: string, e1: string, d2: string, e2: string)
    requires AllDigits(d1) && AllDigits(d2)
    requires e1 == [] || e1[0] == '.'
    requires e2 == [] || e2[0] == '.'
    requires d1 + e1 == d2 + e2
    ensures d1 == d2 && e1 == e2
  {
    assert d1 == (d1 + e1)[..|d1|] == (d2 + e2)[..|d2|] == d2;
  }

  /** Two page names of one release are equal only for the same counter
      and extension: no page overwrites another. */
  lemma PageNameInjective(release: string, n1: nat, e1: string, n2: nat, e2: string)
    requires e1 == [] || e1[0] == '.'
    requires e2 == [] || e2[0] == '.'
    requires PageName(release, n1, e1) == PageName(release, n2, e2)
    ensures n1 == n2 && e1 == e2
  {
    var p := |release + " - p"|;
    var d1, d2 := FormatZeroPadded(n1, 3), FormatZeroPadded(n2, 3);
    assert PageName(release, n1, e1)[p..] == d1 + e1;
    assert PageName(release, n2, e2)[p..] == d2 + e2;
    DigitsThenExt(d1, e1, d2, e2);
    FormatZeroPaddedRoundTrip(n1, 3);
    FormatZeroPaddedRoundTrip(n2, 3);
  }

  /** The names of one call are pairwise distinct. */
  lemma PageNamesDistinct(release: string, start: nat, imgs: seq<string>)
    ensures forall i, j :: 0 <= i < j < |imgs| ==>
              PageNames(release, start, imgs)[i] != PageNames(release, start, imgs)[j]
  {
    var names := PageNames(release, start, imgs);
    forall i, j | 0 <= i < j < |imgs| ensures names[i] != names[j] {
      if names[i] == names[j] {
        PageNameInjective(release, start + i, Ext(imgs[i]), start + j, Ext(imgs[j]));
      }
    }
  }

  // ------------------------------------------------------------ renames

  /** Renaming `srcs[k]` to `dsts[k]` one after the other in `files`;
      `None` when a source is missing (`FileNotFoundError`). A rename onto
      an existing name replaces it. */
  function Renames(files: set<string>, srcs: seq<string>, dsts: seq<string>): Option<set<string>>
    requires |srcs| == |dsts|
  {
    if srcs == [] then Some(files)
    else
      var before :- Renames(files, srcs[..|srcs| - 1], dsts[..|dsts| - 1]);
      var src := srcs[|srcs| - 1];
      if src in before then Some(before - {src} + {dsts[|dsts| - 1]}) else None
  }

  /** The names in `s`, as a set. */
  function SeqSet(s: seq<string>): set<string>
  {
    if s == [] then {} else SeqSet(s[..|s| - 1]) + {s[|s| - 1]}
  }

  lemma {:induction false} SeqSetMembers(s: seq<string>, x: string)
    ensures x in SeqSet(s) <==> x in s
  {
    if s != [] {
      SeqSetMembers(s[..|s| - 1], x);
      assert s == s[..|s| - 1] + [s[|s| - 1]];
    }
  }

  /** Distinct sources that are all present, none of them the target of an
      earlier rename, all move: the sources go and the targets come. */
  lemma {:induction false} RenamesAll(files: set<string>, srcs: seq<string>, dsts: seq<string>)
    requires |srcs| == |dsts|
    requires forall k :: 0 <= k < |srcs| ==> srcs[k] in files
    requires forall i, j :: 0 <= i < j < |srcs| ==> srcs[i] != srcs[j] && dsts[i] != srcs[j]
    ensures Renames(files, srcs, dsts) == Some(files - SeqSet(srcs) + SeqSet(dsts))
  {
    if srcs != [] {
      var n := |srcs|;
      var s0, d0 := srcs[..n - 1], dsts[..n - 1];
      var src, dst := srcs[n - 1], dsts[n - 1];
      RenamesAll(files, s0, d0);
      assert src !in SeqSet(s0) && src !in SeqSet(d0) by {
        SeqSetMembers(s0, src);
        SeqSetMembers(d0, src);
      }
      var before := files - SeqSet(s0) + SeqSet(d0);
      assert Renames(files, srcs, dsts) == Some(before - {src} + {dst});
      RenameStep(files, SeqSet(s0), SeqSet(d0), src, dst);
    } else {
      assert SeqSet(srcs) == {} && SeqSet(dsts) == {};
      assert files - {} + {} == files;
    }
  }

  /** One more rename, on sets. */
  lemma RenameStep(files: set<string>, gone: set<string>, came: set<string>, src: string, dst: string)
    requires src !in came
    ensures (files - gone + came) - {src} + {dst} == files - (gone + {src}) + (came + {dst})
  {
  }

  /** The last rename of a run, given the result of the ones before. */
  lemma RenamesLast(files: set<string>, srcs: seq<string>, dsts: seq<string>, before: set<string>)
    requires |srcs| == |dsts| && srcs != []
    requires Renames(files, srcs[..|srcs| - 1], dsts[..|dsts| - 1]) == Some(before)
    ensures Renames(files, srcs, dsts)
         == if srcs[|srcs| - 1] in before then Some(before - {srcs[|srcs| - 1]} + {dsts[|dsts| - 1]}) else None
  {
  }

  /** One more step of a run of renames that has succeeded so far: it
      succeeds when its source is there, and otherwise the run fails. */
  lemma RenamesNext(files: set<string>, srcs: seq<string>, dsts: seq<string>, j: nat, before: set<string>)
    requires |srcs| == |dsts| && j < |srcs|
    requires Renames(files, srcs[..j], dsts[..j]) == Some(before)
    ensures srcs[j] in before ==>
              Renames(files, srcs[..j + 1], dsts[..j + 1]) == Some(before - {srcs[j]} + {dsts[j]})
    ensures srcs[j] !in before ==> Renames(files, srcs, dsts).None?
  {
    assert srcs[..j + 1][..j] == srcs[..j] && dsts[..j + 1][..j] == dsts[..j];
    RenamesLast(files, srcs[..j + 1], dsts[..j + 1], before);
    if srcs[j] !in before {
      RenamesFailurePersists(files, srcs, dsts, j + 1);
    }
  }

  /** A rename that fails fails the whole run. */
  lemma {:induction false} RenamesFailurePersists(files: set<string>, srcs: seq<string>, dsts: seq<string>, j: nat)
    requires |srcs| == |dsts| && j <= |srcs|
    requires Renames(files, srcs[..j], dsts[..j]).None?
    ensures Renames(files, srcs, dsts).None?
    decreases |srcs| - j
  {
    if j < |srcs| {
      assert srcs[..j + 1][..j] == srcs[..j] && dsts[..j + 1][..j] == dsts[..j];
      RenamesFailurePersists(files, srcs, dsts, j + 1);
    } else {
      assert srcs[..j] == srcs && dsts[..j] == dsts;
    }
  }

  // -------------------------------------------------------- EPUB pages

  /** `_inject_meta`'s page title: the cover for page 1. */
  function PageTitle(release: string, number: int): string
  {
    if number == 1 then release + " - Cover Page" else release + " - Page #" + IntToDecimal(number)
  }

  /** Only page 1 is titled as the cover, and every other title ends with
      its page number. */
  lemma PageTitleCover(release: string, number: int)
    ensures PageTitle(release, number) == release + " - Cover Page" <==> number == 1
    ensures number != 1 ==> ParseInt(PageTitle(release, number)[|release| + 9..]) == Some(number)
  {
    var t := PageTitle(release, number);
    if number != 1 {
      assert t[|release| + 3] == 'P' != (release + " - Cover Page")[|release| + 3];
      assert t[|release| + 9..] == IntToDecimal(number);
      IntToDecimalRoundTrip(number);
    }
  }

  /** `f"page_{number:03d}.xhtml"`. */
  function XhtmlName(number: int): string
  {
    "page_" + FormatZeroPadded(number, 3) + ".xhtml"
  }

  /** Each page number has its own XHTML file. */
  lemma XhtmlNameInjective(a: int, b: int)
    requires XhtmlName(a) == XhtmlName(b)
    ensures a == b
  {
    var x, y := XhtmlName(a), XhtmlName(b);
    assert x[5..|x| - 6] == FormatZeroPadded(a, 3);
    assert y[5..|y| - 6] == FormatZeroPadded(b, 3);
    FormatZeroPaddedRoundTrip(a, 3);
    FormatZeroPaddedRoundTrip(b, 3);
  }

  /** An entry written to the output archive: an image under its own name,
      or the XHTML page of page `number`, stored as `XhtmlName(number)` and
      made from the page template with the title `PageTitle(release,
      number)`, the number and the image's name. */
  datatype ArchiveEntry =
    | Image(name: string)
    | Page(number: int, filename: string)

  /** The entries `add_image` writes for one image: the image, followed by
      its XHTML page when exporting EPUB. */
  function EntriesFor(kind: ExporterType, release: string, number: int, name: string): seq<ArchiveEntry>
  {
    [Image(name)] + if kind == Epub then [Page(number, name)] else []
  }

  /** The entries `add_image` writes for `names`, pages numbered from `start`. */
  function ArchiveEntries(kind: ExporterType, release: string, start: int, names: seq<string>)
    : (r: seq<ArchiveEntry>)
    ensures |r| == |names| + if kind == Epub then |names| else 0
  {
    if names == [] then []
    else
      var n := |names| - 1;
      ArchiveEntries(kind, release, start, names[..n]) + EntriesFor(kind, release, start + n, names[n])
  }

  /** In an EPUB, image `k` sits at `2k` and its page, numbered `start + k`,
      right after it. */
  lemma {:induction false} EpubEntriesAt(release: string, start: int, names: seq<string>, k: nat)
    requires k < |names|
    ensures var r := ArchiveEntries(Epub, release, start, names);
            r[2 * k] == Image(names[k])
            && r[2 * k + 1] == Page(start + k, names[k])
  {
    var n := |names| - 1;
    var init := ArchiveEntries(Epub, release, start, names[..n]);
    var last := EntriesFor(Epub, release, start + n, names[n]);
    var r := ArchiveEntries(Epub, release, start, names);
    assert r == init + last;
    assert |init| == 2 * n && |last| == 2;
    if k < n {
      EpubEntriesAt(release, start, names[..n], k);
      assert names[..n][k] == names[k];
      assert r[2 * k] == init[2 * k] && r[2 * k + 1] == init[2 * k + 1];
    } else {
      assert r[2 * k] == last[0] && r[2 * k + 1] == last[1];
    }
  }

  /** The archive name the CBZ and EPUB exporters open. */
  function ArchiveName(release: string): string
  {
    release + ".cbz"
  }

  /** The archive name the existence check looks for. */
  function ExpectedArchive(kind: ExporterType, release: string): string
  {
    if kind == Epub then release + ".epub" else release + ".cbz"
  }

  /** The number of valid image files among `files`. */
  function ValidImageCount(files: set<string>): nat
  {
    |set f | f in files && Ext(Basename(f)) in ValidImages|
  }

  /** `is_existing`: the CBZ and EPUB exporters first look for their
      archive in the parent directory; then the output directory must
      exist and hold as many valid image files as the book has images. */
  predicate Existing(kind: ExporterType, release: string, parentFiles: set<string>,
                     outDirExists: bool, outFiles: set<string>, images: nat)
  {
    (kind != Raw && ExpectedArchive(kind, release) in parentFiles)
    || (outDirExists && ValidImageCount(outFiles) == images)
  }

  /** The EPUB exporter writes `{release}.cbz` but looks for
      `{release}.epub`: its own archive never makes it existing. */
  lemma EpubArchiveNotSeen(release: string, parentFiles: set<string>, outDirExists: bool,
                           outFiles: set<string>, images: nat)
    ensures Existing(Epub, release, parentFiles + {ArchiveName(release)}, outDirExists, outFiles, images)
         == Existing(Epub, release, parentFiles, outDirExists, outFiles, images)
  {
    assert ArchiveName(release)[|release| + 1] == 'c' != ExpectedArchive(Epub, release)[|release| + 1];
  }

  /** The CBZ exporter does find its own archive. */
  lemma CbzArchiveSeen(release: string, parentFiles: set<string>, outDirExists: bool,
                       outFiles: set<string>, images: nat)
    ensures Existing(Cbz, release, parentFiles + {ArchiveName(release)}, outDirExists, outFiles, images)
  {
  }

  datatype FsError = FileNotFound(path: string)

  // ------------------------------------------------- loops over names

  /** A prefix one longer is the prefix and the next element. */
  lemma PrefixSnoc<T>(s: seq<T>, j: nat)
    requires j < |s|
    ensures s[..j + 1] == s[..j] + [s[j]]
  {
  }

  /** The selection loop of `add_image`: the file names of the image
      entries, in archive order. */
  method SelectImageNames(entries: seq<ZipEntry>) returns (selected: seq<string>)
    ensures selected == SelectImages(entries)
  {
    selected := [];
    var i := 0;
    while i < |entries|
      invariant 0 <= i <= |entries|
      invariant selected == SelectImages(entries[..i])
    {
      var e := entries[i];
      assert entries[..i + 1][..i] == entries[..i];
      if !e.isDir && Ext(Basename(e.filename)) in ValidImages {
        selected := selected + [e.filename];
      }
      i := i + 1;
    }
    assert entries[..i] == entries;
  }

  /** Reading and removing `names` one after the other from `files` never
      misses. */
  predicate PresentOnce(names: seq<string>, files: set<string>)
  {
    names == []
    || (var n := |names| - 1;
        PresentOnce(names[..n], files) && names[n] in files - SeqSet(names[..n]))
  }

  /** The same, name by name: each name is in `files` and comes for the
      first time. */
  lemma {:induction false} PresentOnceIff(names: seq<string>, files: set<string>)
    ensures PresentOnce(names, files) <==>
              forall k :: 0 <= k < |names| ==> names[k] in files && names[k] !in names[..k]
  {
    if names != [] {
      var n := |names| - 1;
      var init := names[..n];
      PresentOnceIff(init, files);
      SeqSetMembers(init, names[n]);
      assert names[..n] == init;
      forall k | 0 <= k < n ensures init[..k] == names[..k] && init[k] == names[k] {
      }
    }
  }

  /** A prefix of names read without a miss is read without a miss. */
  lemma {:induction false} PresentOncePrefix(names: seq<string>, files: set<string>, j: nat)
    requires j <= |names| && PresentOnce(names, files)
    ensures PresentOnce(names[..j], files)
    decreases |names| - j
  {
    if j < |names| {
      var n := |names| - 1;
      assert names[..n][..j] == names[..j];
      PresentOncePrefix(names[..n], files, j);
    } else {
      assert names[..j] == names;
    }
  }

  /** After renames that all succeed, every target is there once: the
      archive writer finds each renamed page. */
  lemma RenamedPresentOnce(files: set<string>, srcs: seq<string>, dsts: seq<string>)
    requires |srcs| == |dsts|
    requires forall k :: 0 <= k < |srcs| ==> srcs[k] in files
    requires forall i, j :: 0 <= i < j < |srcs| ==> srcs[i] != srcs[j] && dsts[i] != srcs[j]
    requires forall i, j :: 0 <= i < j < |dsts| ==> dsts[i] != dsts[j]
    ensures Renames(files, srcs, dsts).Some?
    ensures PresentOnce(dsts, Renames(files, srcs, dsts).value)
  {
    RenamesAll(files, srcs, dsts);
    var after := files - SeqSet(srcs) + SeqSet(dsts);
    forall k | 0 <= k < |dsts| ensures dsts[k] in after && dsts[k] !in dsts[..k] {
      SeqSetMembers(dsts, dsts[k]);
    }
    PresentOnceIff(dsts, after);
  }

  /** One more image read and removed: it is found exactly when it is in
      the files and has not come before; otherwise the whole run misses. */
  lemma PresentOnceNext(names: seq<string>, files: set<string>, j: nat)
    requires j < |names| && PresentOnce(names[..j], files)
    ensures files - SeqSet(names[..j + 1]) == files - SeqSet(names[..j]) - {names[j]}
    ensures names[j] in files - SeqSet(names[..j]) ==> PresentOnce(names[..j + 1], files)
    ensures names[j] !in files - SeqSet(names[..j]) ==> !PresentOnce(names, files)
  {
    var init := names[..j + 1];
    assert init[..j] == names[..j];
    assert SeqSet(init) == SeqSet(names[..j]) + {names[j]};
    if names[j] !in files - SeqSet(names[..j]) && PresentOnce(names, files) {
      PresentOncePrefix(names, files, j + 1);
    }
  }

  /** The archive grows by the entries of one more image. */
  lemma ArchiveEntriesNext(kind: ExporterType, release: string, start: int, names: seq<string>, j: nat)
    requires j < |names|
    ensures ArchiveEntries(kind, release, start, names[..j + 1])
         == ArchiveEntries(kind, release, start, names[..j]) + EntriesFor(kind, release, start + j, names[j])
  {
    assert names[..j + 1][..j] == names[..j];
  }

  /** When the page archive's image names are distinct and none of them is
      the page name an earlier image is given, the CBZ and EPUB `add_image`
      rename and then find every image. */
  lemma AddImageSucceeds(files: set<string>, entries: seq<ZipEntry>, release: string, start: nat)
    requires var sel := SelectImages(entries);
             forall i, j :: 0 <= i < j < |sel| ==>
               sel[i] != sel[j] && PageName(release, start + i, Ext(sel[i])) != sel[j]
    ensures var sel := SelectImages(entries);
            var after := Renames(files + ExtractedFiles(entries), sel, PageNames(release, start, sel));
            after.Some? && PresentOnce(PageNames(release, start, sel), after.value)
  {
    var sel := SelectImages(entries);
    var names := PageNames(release, start, sel);
    var all := files + ExtractedFiles(entries);
    forall k | 0 <= k < |sel| ensures sel[k] in all {
      SelectSound(entries, IsImageEntry, sel[k]);
    }
    PageNamesDistinct(release, start, sel);
    RenamedPresentOnce(all, sel, names);
  }

  // ----------------------------------------------------------- exporter

  /** `MangaExporter`, `CBZMangaExporter` and `EPUBMangaExporter`. The
      output directory is `outFiles` (paths relative to it) and its parent
      directory `parentFiles`; `archive` lists what has been written to the
      CBZ/EPUB zip file, whose name is `archiveName` once it is open. */
  class MangaExporter {
    const kind: ExporterType
    const comic: ComicData
    /** `comic.release_name`, which does not change. */
    const release: string
    var imageCount: nat
    var pageCounter: int
    var archiveName: Option<string>
    var archive: seq<ArchiveEntry>
    var archiveClosed: bool
    var outDirExists: bool
    var outFiles: set<string>
    var parentFiles: set<string>


    /** An open archive is the book's `.cbz` file in the parent directory. */
    predicate Valid()
      reads this
    {
      archiveName.Some? ==> archiveName.value == ArchiveName(release) && archiveName.value in parentFiles
    }

    /** The constructors: the output directory is created when missing and
        keeps what it holds; the image counter starts at 0, the EPUB page
        counter at 1, and no archive is open. */
    constructor (kind: ExporterType, comic: ComicData, outFiles: set<string>, parentFiles: set<string>)
      ensures this.kind == kind && this.comic == comic && release == ReleaseName(comic)
      ensures this.outFiles == outFiles && this.parentFiles == parentFiles && outDirExists
      ensures imageCount == 0 && pageCounter == 1
      ensures archiveName == None && archive == [] && !archiveClosed
      ensures Valid()
    {
      this.kind, this.comic, release := kind, comic, ReleaseName(comic);
      this.outFiles, this.parentFiles, outDirExists := outFiles, parentFiles, true;
      imageCount, pageCounter := 0, 1;
      archiveName, archive, archiveClosed := None, [], false;
    }

    /** `is_existing`, per exporter kind. */
    predicate IsExisting()
      reads this
    {
      Existing(kind, release, parentFiles, outDirExists, outFiles, |comic.images|)
    }

    /** Opens `{release}.cbz` for writing in the parent directory, unless it
        is already open (both the CBZ and the EPUB exporter do this). */
    method OpenArchive()
      requires Valid()
      modifies this
      ensures archiveName == Some(ArchiveName(release))
      ensures parentFiles == old(parentFiles) + {ArchiveName(release)}
      ensures imageCount == old(imageCount) && pageCounter == old(pageCounter)
      ensures archive == old(archive) && archiveClosed == old(archiveClosed)
      ensures outDirExists == old(outDirExists) && outFiles == old(outFiles)
      ensures Valid()
    {
      if archiveName.None? {
        archiveName := Some(ArchiveName(release));
        parentFiles := parentFiles + {ArchiveName(release)};
      }
    }

    /** The fields the renaming loop leaves alone. */
    ghost function RenameFrame(): (Option<string>, set<string>, seq<ArchiveEntry>, bool, int, bool)
      reads this
    {
      (archiveName, parentFiles, archive, archiveClosed, pageCounter, outDirExists)
    }

    /** The renaming loop of `add_image`: each selected image becomes
        `{release} - p{count:03d}{ext}` while the image counter runs on; a
        source that is gone raises `FileNotFoundError`. */
    method RenameImages(selected: seq<string>) returns (r: Result<seq<string>, FsError>)
      modifies this
      ensures var names := PageNames(release, old(imageCount), selected);
              var after := Renames(old(outFiles), selected, names);
              (r.Ok? <==> after.Some?)
              && (r.Ok? ==> r.value == names && outFiles == after.value
                            && imageCount == old(imageCount) + |selected|)
      ensures r.Err? ==> exists k :: 0 <= k < |selected| && r.error == FileNotFound(selected[k])
      ensures RenameFrame() == old(RenameFrame())
    {
      ghost var files0, start := outFiles, imageCount;
      ghost var all := PageNames(release, start, selected);
      var names: seq<string> := [];
      var j := 0;
      while j < |selected|
        invariant 0 <= j <= |selected|
        invariant imageCount == start + j
        invariant names == all[..j]
        invariant Renames(files0, selected[..j], all[..j]) == Some(outFiles)
        invariant RenameFrame() == old(RenameFrame())
      {
        var img := selected[j];
        var target := PageName(release, imageCount, Ext(img));
        assert target == all[j];
        RenamesNext(files0, selected, all, j, outFiles);
        if img !in outFiles {
          assert Renames(old(outFiles), selected, all).None?;
          return Err(FileNotFound(img));
        }
        PrefixSnoc(all, j);
        outFiles := outFiles - {img} + {target};
        names := names + [target];
        imageCount := imageCount + 1;
        j := j + 1;
      }
      assert selected[..j] == selected && all[..j] == all;
      assert Renames(old(outFiles), selected, all) == Some(outFiles);
      return Ok(names);
    }

    /** `MangaExporter.add_image`: extracts every file of the page archive,
        then renames its images, returning their new names. */
    method BaseAddImage(entries: seq<ZipEntry>) returns (r: Result<seq<string>, FsError>)
      modifies this
      ensures var selected := SelectImages(entries);
              var names := PageNames(release, old(imageCount), selected);
              var after := Renames(old(outFiles) + ExtractedFiles(entries), selected, names);
              (r.Ok? <==> after.Some?)
              && (r.Ok? ==> r.value == names && outFiles == after.value
                            && imageCount == old(imageCount) + |selected|)
      ensures archiveName == old(archiveName) && parentFiles == old(parentFiles)
      ensures archive == old(archive) && archiveClosed == old(archiveClosed)
      ensures pageCounter == old(pageCounter) && outDirExists == old(outDirExists)
    {
      outFiles := outFiles + ExtractedFiles(entries);
      var selected := SelectImageNames(entries);
      r := RenameImages(selected);
    }

    /** `_inject_meta`: writes the XHTML page of image `filename`, titled
        after its page number. */
    method InjectMeta(number: int, filename: string)
      modifies this
      ensures archive == old(archive) + [Page(number, filename)]
      ensures imageCount == old(imageCount) && pageCounter == old(pageCounter)
      ensures archiveName == old(archiveName) && parentFiles == old(parentFiles)
      ensures archiveClosed == old(archiveClosed)
      ensures outDirExists == old(outDirExists) && outFiles == old(outFiles)
    {
      archive := archive + [Page(number, filename)];
    }

    /** The fields the writing loop leaves alone. */
    ghost function WriteFrame(): (nat, Option<string>, set<string>, bool, bool)
      reads this
    {
      (imageCount, archiveName, parentFiles, archiveClosed, outDirExists)
    }

    /** The loop of the CBZ and EPUB `add_image`: each renamed image is
        read, written to the archive (with its XHTML page for EPUB) and
        removed; a missing file raises `FileNotFoundError`. */
    method WriteImages(names: seq<string>) returns (r: Result<(), FsError>)
      modifies this
      ensures r.Ok? <==> PresentOnce(names, old(outFiles))
      ensures r.Ok? ==> archive == old(archive) + ArchiveEntries(kind, release, old(pageCounter), names)
                        && outFiles == old(outFiles) - SeqSet(names)
                        && pageCounter == old(pageCounter) + if kind == Epub then |names| else 0
      ensures WriteFrame() == old(WriteFrame())
    {
      ghost var files0, archive0, counter0 := outFiles, archive, pageCounter;
      var j := 0;
      while j < |names|
        invariant 0 <= j <= |names|
        invariant PresentOnce(names[..j], files0)
        invariant outFiles == files0 - SeqSet(names[..j])
        invariant archive == archive0 + ArchiveEntries(kind, release, counter0, names[..j])
        invariant pageCounter == counter0 + if kind == Epub then j else 0
        invariant WriteFrame() == old(WriteFrame())
      {
        var image := names[j];
        PresentOnceNext(names, files0, j);
        ArchiveEntriesNext(kind, release, counter0, names, j);
        if image !in outFiles {
          return Err(FileNotFound(image));
        }
        ghost var next := archive + EntriesFor(kind, release, counter0 + j, image);
        assert next == archive0 + ArchiveEntries(kind, release, counter0, names[..j + 1]);
        if kind == Epub {
          archive := archive + [Image(image)];
          InjectMeta(pageCounter, image);
          assert archive == next;
          outFiles := outFiles - {image};
          pageCounter := pageCounter + 1;
        } else {
          archive := archive + [Image(image)];
          assert archive == next;
          outFiles := outFiles - {image};
        }
        j := j + 1;
      }
      assert names[..j] == names;
      r := Ok(());
    }

    /** `add_image` of the three exporters; the CBZ and EPUB exporters both
        open `{release}.cbz` first. */
    method AddImage(entries: seq<ZipEntry>) returns (r: Result<seq<string>, FsError>)
      requires Valid()
      modifies this
      ensures Valid()
      ensures kind != Raw ==> archiveName == Some(ArchiveName(release))
      ensures parentFiles == old(parentFiles) + if kind == Raw then {} else {ArchiveName(release)}
      ensures var selected := SelectImages(entries);
              var names := PageNames(release, old(imageCount), selected);
              var after := Renames(old(outFiles) + ExtractedFiles(entries), selected, names);
              (r.Ok? <==> after.Some? && (kind == Raw || PresentOnce(names, after.value)))
              && (r.Ok? ==> r.value == names && imageCount == old(imageCount) + |selected|
                            && outFiles == (if kind == Raw then after.value else after.value - SeqSet(names))
                            && archive == old(archive) + (if kind == Raw then [] else
                                                            ArchiveEntries(kind, release, old(pageCounter), names))
                            && pageCounter == old(pageCounter) + if kind == Epub then |names| else 0)
      ensures archiveClosed == old(archiveClosed) && outDirExists == old(outDirExists)
    {
      if kind != Raw {
        OpenArchive();
      }
      r := BaseAddImage(entries);
      if r.Ok? && kind != Raw {
        var w := WriteImages(r.value);
        if w.Err? {
          r := Err(w.error);
        }
      }
    }

    /** `self_destruct_folder` applied to the output directory, as written:
        every entry is unlinked, in the directory's own order, but the loop
        variable rebinds `folder`, so `rmdir` is then applied to the last
        entry, which no longer exists. Only an empty directory is removed. */
    method SelfDestructAsWritten() returns (r: Result<(), FsError>)
      modifies this
      ensures outFiles == (if old(outDirExists) then {} else old(outFiles))
      ensures r.Ok? <==> !old(outDirExists) || old(outFiles) == {}
      ensures outDirExists <==> old(outDirExists) && old(outFiles) != {}
      ensures r.Err? ==> r.error.path in old(outFiles)
      ensures imageCount == old(imageCount) && pageCounter == old(pageCounter)
      ensures archiveName == old(archiveName) && archive == old(archive)
      ensures archiveClosed == old(archiveClosed) && parentFiles == old(parentFiles)
    {
      if !outDirExists {
        return Ok(());
      }
      var folder: Option<string> := None;
      while outFiles != {}
        invariant outFiles <= old(outFiles)
        invariant folder.None? <==> outFiles == old(outFiles)
        invariant folder.Some? ==> folder.value in old(outFiles) && folder.value !in outFiles
        invariant imageCount == old(imageCount) && pageCounter == old(pageCounter)
        invariant archiveName == old(archiveName) && archive == old(archive)
        invariant archiveClosed == old(archiveClosed) && parentFiles == old(parentFiles)
        invariant outDirExists
        decreases outFiles
      {
        var entry :| entry in outFiles;
        outFiles := outFiles - {entry};
        folder := Some(entry);
      }
      if folder.None? {
        outDirExists := false;
        r := Ok(());
      } else {
        r := Err(FileNotFound(folder.value));
      }
    }

    /** `self_destruct_folder` as intended: every entry is unlinked and then
        the directory itself is removed. */
    method SelfDestruct()
      modifies this
      ensures outFiles == {} && !outDirExists
      ensures imageCount == old(imageCount) && pageCounter == old(pageCounter)
      ensures archiveName == old(archiveName) && archive == old(archive)
      ensures archiveClosed == old(archiveClosed) && parentFiles == old(parentFiles)
    {
      if !outDirExists {
        outFiles := {};
        return;
      }
      while outFiles != {}
        invariant imageCount == old(imageCount) && pageCounter == old(pageCounter)
        invariant archiveName == old(archiveName) && archive == old(archive)
        invariant archiveClosed == old(archiveClosed) && parentFiles == old(parentFiles)
        decreases outFiles
      {
        var entry :| entry in outFiles;
        outFiles := outFiles - {entry};
      }
      outDirExists := false;
    }

    /** `close` as the code runs it: the CBZ exporter closes its archive,
        and its clean-up is `SelfDestructAsWritten`, so an output directory
        that still holds a file raises `FileNotFoundError` and stays. */
    method CloseAsWritten() returns (r: Result<(), FsError>)
      modifies this
      ensures kind == Cbz ==> archiveClosed == (old(archiveClosed) || archiveName.Some?)
                              && (r.Ok? <==> !old(outDirExists) || old(outFiles) == {})
                              && outDirExists == (old(outDirExists) && old(outFiles) != {})
                              && outFiles == (if old(outDirExists) then {} else old(outFiles))
      ensures kind != Cbz ==> r.Ok? && outFiles == old(outFiles) && outDirExists == old(outDirExists)
                              && archiveClosed == old(archiveClosed)
      ensures imageCount == old(imageCount) && pageCounter == old(pageCounter)
      ensures archiveName == old(archiveName) && archive == old(archive)
      ensures parentFiles == old(parentFiles)
    {
      if kind == Cbz {
        if archiveName.Some? {
          archiveClosed := true;
        }
        r := SelfDestructAsWritten();
      } else {
        r := Ok(());
      }
    }

    /** `close` with the clean-up it evidently intends: the CBZ exporter
        closes its archive and removes the output directory; the raw and
        EPUB exporters do nothing. */
    method Close()
      modifies this
      ensures kind == Cbz ==> outFiles == {} && !outDirExists
                              && archiveClosed == (old(archiveClosed) || archiveName.Some?)
      ensures kind != Cbz ==> outFiles == old(outFiles) && outDirExists == old(outDirExists)
                              && archiveClosed == old(archiveClosed)
      ensures imageCount == old(imageCount) && pageCounter == old(pageCounter)
      ensures archiveName == old(archiveName) && archive == old(archive)
      ensures parentFiles == old(parentFiles)
    {
      if kind == Cbz {
        if archiveName.Some? {
          archiveClosed := true;
        }
        SelfDestruct();
      }
    }
  }

  /** `exporter_factory`: a name is read with `from_choice`, and the type
      picks the exporter class. */
  method ExporterFactory(comic: ComicData, mode: Mode, outFiles: set<string>, parentFiles: set<string>)
    returns (e: MangaExporter)
    ensures fresh(e) && e.Valid()
    ensures e.kind == ModeType(mode) && e.comic == comic && e.release == ReleaseName(comic)
    ensures e.outFiles == outFiles && e.parentFiles == parentFiles && e.outDirExists
    ensures e.imageCount == 0 && e.pageCounter == 1
    ensures e.archiveName == None && e.archive == [] && !e.archiveClosed
  {
    e := new MangaExporter(ModeType(mode), comic, outFiles, parentFiles);
  }
}
