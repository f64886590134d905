/**
 * The content pack as both versions of Content.java see it: an archive of
 * named byte blobs, the `.ani` manifests inside it, the manifest-line format
 * and the decoded sprite frames. The two loaders differ only in how they
 * filter manifest names and in how they wrap exceptions; what they share is
 * defined here once.
 */
module Catalog {
  import opened Wrappers
  import opened JavaText

  /** One archive member: its path inside the archive and its bytes. */
  datatype Entry = Entry(name: string, data: seq<bv8>)

  /** A zip file, entries in enumeration order. */
  type Archive = seq<Entry>

  /** A decoded image; the loader never looks inside it. */
  datatype Bitmap = Bitmap(width: nat, height: nat, pixels: seq<bv32>)

  /** BitmapFactory.decodeByteArray: `None` where it returns null. */
  type Decoder = seq<bv8> -> Option<Bitmap>

  /** Where a frame is drawn on the canvas. */
  datatype Hotspot = Hotspot(x: int, y: int)

  /** Content.Frame: the image file, its hotspot and its decoded pixels. */
  datatype Sprite = Sprite(filename: string, hotspot: Hotspot, pixels: Bitmap)

  /** The Java exception behind a failed load. */
  datatype Cause =
    | NoManifest(tried: seq<string>)  // IOException "error loading content, tried[...]"
    | NoContent                       // IOException "no content found"
    | EntryMissing(name: string)      // NullPointerException: getEntry returned null
    | MissingField(line: string)      // ArrayIndexOutOfBoundsException on field[3] or field[4]
    | NotAnInteger(text: string)      // NumberFormatException from Integer.parseInt
    | Undecodable(name: string)       // IOException "Could not decode file ..."
  {
    /** The cause is itself an IOException rather than a runtime exception. */
    predicate IsIOException() { NoManifest? || NoContent? || Undecodable? }
  }

  /** The IOException a Content constructor throws; `wrapped` when it is a new
      IOException("error loading content: " + cause) rather than the cause
      rethrown unchanged. */
  datatype LoadError = LoadError(cause: Cause, wrapped: bool)

  /** A Content constructor either returns the frames in manifest-line order,
      or throws, having closed the archive or not. */
  datatype Outcome = Built(frames: seq<Sprite>) | Threw(error: LoadError, closedArchive: bool)

  // ---------------------------------------------------------------------
  // The archive

  /** Position of the first entry called `name`, or |archive|. */
  function EntryIndex(archive: Archive, name: string): (r: nat)
    ensures r <= |archive|
    ensures r < |archive| ==> archive[r].name == name
    ensures forall k :: 0 <= k < r ==> archive[k].name != name
  {
    if archive == [] then 0
    else if archive[0].name == name then 0
    else 1 + EntryIndex(archive[1..], name)
  }

  /** readFromContentPack(name): the entry's bytes; a missing entry makes
      `zipfile.getEntry` return null and the next call throw. */
  function ReadEntry(archive: Archive, name: string): (r: Result<seq<bv8>, Cause>)
    ensures r.Failure? <==> forall k :: 0 <= k < |archive| ==> archive[k].name != name
    ensures r.Failure? ==> r.error == EntryMissing(name)
    ensures r.Success? ==> exists k :: 0 <= k < |archive| && archive[k] == Entry(name, r.value)
  {
    var i := EntryIndex(archive, name);
    if i == |archive| then Failure(EntryMissing(name)) else Success(archive[i].data)
  }

  /** The names of the entries that `keep` accepts, in enumeration order. */
  function EntryNames(archive: Archive, keep: string -> bool): (r: seq<string>)
    ensures |r| <= |archive|
    ensures forall n :: n in r ==> keep(n)
    ensures forall k :: 0 <= k < |archive| && keep(archive[k].name) ==> archive[k].name in r
    ensures forall n :: n in r ==> exists k :: 0 <= k < |archive| && archive[k].name == n
  {
    if archive == [] then []
    else
      var last := archive[|archive| - 1];
      var r := EntryNames(archive[..|archive| - 1], keep) + (if keep(last.name) then [last.name] else []);
      assert forall k :: 0 <= k < |archive| - 1 ==> archive[..|archive| - 1][k] == archive[k];
      r
  }

  /** Filtering keeps archive order: the names kept from two consecutive
      stretches of the archive are those of the first, then those of the second. */
  lemma {:induction false} EntryNamesAppend(a: Archive, b: Archive, keep: string -> bool)
    ensures EntryNames(a + b, keep) == EntryNames(a, keep) + EntryNames(b, keep)
    decreases |b|
  {
    if b != [] {
      var b' := b[..|b| - 1];
      assert (a + b)[..|a + b| - 1] == a + b';
      EntryNamesAppend(a, b', keep);
    } else {
      assert a + b == a;
    }
  }

  /** `new String(bytes)`, one character per byte (exact for ASCII manifests). */
  function Text(bytes: seq<bv8>): string
  {
    seq(|bytes|, k requires 0 <= k < |bytes| => (bytes[k] as int) as char)
  }

  // ---------------------------------------------------------------------
  // Manifest lines

  /** Hotspot(float x, float y): each authored coordinate becomes its absolute
      value, so a negative hotspot silently flips sign. */
  function NormalHotspot(x: int, y: int): (h: Hotspot)
    ensures h.x >= 0 && h.y >= 0
    ensures (h.x == x || h.x == -x) && (h.y == y || h.y == -y)
  {
    Hotspot(if x > 0 then x else -x, if y > 0 then y else -y)
  }

  /** Hotspot(String x, String y): x is parsed first, then y. */
  function ParseHotspot(x: string, y: string): (r: Result<Hotspot, Cause>)
    ensures r.Success? <==> ParseInt(x).Some? && ParseInt(y).Some?
    ensures r.Success? ==> r.value == NormalHotspot(ParseInt(x).value, ParseInt(y).value)
    ensures ParseInt(x).None? ==> r == Failure(NotAnInteger(x))
    ensures ParseInt(x).Some? && ParseInt(y).None? ==> r == Failure(NotAnInteger(y))
  {
    match ParseInt(x)
    case None => Failure(NotAnInteger(x))
    case Some(vx) =>
      match ParseInt(y)
      case None => Failure(NotAnInteger(y))
      case Some(vy) => Success(NormalHotspot(vx, vy))
  }

  /** What one manifest line names: an image file and where to draw it. */
  datatype FrameDef = FrameDef(filename: string, hotspot: Hotspot)

  /** `def.trim().split("\\s+", 5)`: the filename is field 0 and the hotspot
      comes from fields 3 and 4, field 4 being everything after the fourth
      run of white space. */
  function ParseFrameDef(def: string): (r: Result<FrameDef, Cause>)
    ensures r.Success? ==> NoRegexSpace(r.value.filename) && r.value.hotspot.x >= 0 && r.value.hotspot.y >= 0
    ensures var field := SplitOnSpaces(Trim(def), 5);
      && (r.Success? <==> |field| == 5 && ParseInt(field[3]).Some? && ParseInt(field[4]).Some?)
      && (|field| < 5 ==> r == Failure(MissingField(def)))
      && (|field| == 5 && ParseInt(field[3]).None? ==> r == Failure(NotAnInteger(field[3])))
      && (r.Success? ==> r.value == FrameDef(field[0], NormalHotspot(ParseInt(field[3]).value, ParseInt(field[4]).value)))
  {
    var field := SplitOnSpaces(Trim(def), 5);
    SplitFields(Trim(def), 5);
    if |field| < 5 then Failure(MissingField(def))
    else
      match ParseHotspot(field[3], field[4])
      case Failure(e) => Failure(e)
      case Success(h) => Success(FrameDef(field[0], h))
  }

  /** Content.Frame(def): parse the line, read the named entry, decode it;
      a decoder that returns null makes the constructor throw. */
  function LoadFrame(archive: Archive, def: string, decode: Decoder): Result<Sprite, Cause>
  {
    match ParseFrameDef(def)
    case Failure(e) => Failure(e)
    case Success(d) =>
      match ReadEntry(archive, d.filename)
      case Failure(e) => Failure(e)
      case Success(bytes) =>
        match decode(bytes)
        case None => Failure(Undecodable(d.filename))
        case Some(pixels) => Success(Sprite(d.filename, d.hotspot, pixels))
  }

  /** A frame is built exactly when its line parses, its image entry exists
      and the decoder accepts the bytes; a null from the decoder is reported
      as an undecodable file, and the frame carries the line's filename and
      normalised hotspot. */
  lemma LoadFrameSpec(archive: Archive, def: string, decode: Decoder)
    ensures var r := LoadFrame(archive, def, decode);
      var p := ParseFrameDef(def);
      && (p.Failure? ==> r == Failure(p.error))
      && (p.Success? && ReadEntry(archive, p.value.filename).Failure? ==> r == Failure(EntryMissing(p.value.filename)))
      && (p.Success? && ReadEntry(archive, p.value.filename).Success? ==>
            var bytes := ReadEntry(archive, p.value.filename).value;
            && (decode(bytes).None? ==> r == Failure(Undecodable(p.value.filename)))
            && (decode(bytes).Some? ==> r == Success(Sprite(p.value.filename, p.value.hotspot, decode(bytes).value))))
  {
  }

  /** The frames of a list of manifest lines, each loaded by `load`, in
      order; the first line that fails aborts the whole list, so no partial
      list is ever returned. */
  function LoadAll<T>(defs: seq<string>, load: string -> Result<T, Cause>): (r: Result<seq<T>, Cause>)
    ensures r.Success? ==> |r.value| == |defs|
  {
    if defs == [] then Success([])
    else
      match LoadAll(defs[..|defs| - 1], load)
      case Failure(e) => Failure(e)
      case Success(frames) =>
        match load(defs[|defs| - 1])
        case Failure(e) => Failure(e)
        case Success(f) => Success(frames + [f])
  }

  /** `new Frame(def)` as a function of the line, for one archive and decoder. */
  function FrameLoader(archive: Archive, decode: Decoder): string -> Result<Sprite, Cause>
  {
    def => LoadFrame(archive, def, decode)
  }

  /** Content.Frame applied to every line of a manifest. */
  function LoadFrames(archive: Archive, defs: seq<string>, decode: Decoder): Result<seq<Sprite>, Cause>
  {
    LoadAll(defs, FrameLoader(archive, decode))
  }

  /** Loading a list succeeds exactly when every line loads. */
  lemma {:induction false} LoadAllSucceeds<T>(defs: seq<string>, load: string -> Result<T, Cause>)
    ensures LoadAll(defs, load).Success? <==> forall k :: 0 <= k < |defs| ==> load(defs[k]).Success?
  {
    if defs != [] {
      var init := defs[..|defs| - 1];
      assert forall k :: 0 <= k < |init| ==> init[k] == defs[k];
      LoadAllSucceeds(init, load);
    }
  }

  /** A successful load yields each line's frame, in line order. */
  lemma {:induction false} LoadAllInOrder<T>(defs: seq<string>, load: string -> Result<T, Cause>)
    requires LoadAll(defs, load).Success?
    ensures forall k :: 0 <= k < |defs| ==> load(defs[k]) == Success(LoadAll(defs, load).value[k])
  {
    if defs != [] {
      var init := defs[..|defs| - 1];
      assert forall k :: 0 <= k < |init| ==> init[k] == defs[k];
      LoadAllInOrder(init, load);
    }
  }

  /** A failed load reports the error of the first line that fails. */
  lemma {:induction false} LoadAllFirstError<T>(defs: seq<string>, load: string -> Result<T, Cause>)
      returns (k: nat)
    requires LoadAll(defs, load).Failure?
    ensures k < |defs| && load(defs[k]) == Failure(LoadAll(defs, load).error)
    ensures forall j :: 0 <= j < k ==> load(defs[j]).Success?
  {
    var init := defs[..|defs| - 1];
    assert forall k :: 0 <= k < |init| ==> init[k] == defs[k];
    if LoadAll(init, load).Failure? {
      k := LoadAllFirstError(init, load);
    } else {
      k := |defs| - 1;
      LoadAllSucceeds(init, load);
    }
  }

  /** Once a prefix of the lines has failed, the rest are never tried: the
      whole list fails with the same error. */
  lemma {:induction false} LoadAllAbort<T>(defs: seq<string>, k: nat, load: string -> Result<T, Cause>)
    requires k <= |defs| && LoadAll(defs[..k], load).Failure?
    ensures LoadAll(defs, load) == LoadAll(defs[..k], load)
    decreases |defs| - k
  {
    if k < |defs| {
      assert defs[..k + 1][..k] == defs[..k];
      LoadAllAbort(defs, k + 1, load);
    } else {
      assert defs[..k] == defs;
    }
  }

  /** One more line: a loaded prefix grows by that line's value, or stops
      at its failure. */
  lemma LoadAllExtend<T>(defs: seq<string>, k: nat, load: string -> Result<T, Cause>, done: seq<T>)
    requires k < |defs| && LoadAll(defs[..k], load) == Success(done)
    ensures LoadAll(defs[..k + 1], load)
            == if load(defs[k]).Success? then Success(done + [load(defs[k]).value]) else Failure(load(defs[k]).error)
  {
    assert defs[..k + 1][..k] == defs[..k];
  }

  /** Each line prefixed with `dir` and "/". */
  function Prefixed(dir: string, lines: seq<string>): (r: seq<string>)
    ensures |r| == |lines|
    ensures forall k :: 0 <= k < |lines| ==> r[k] == dir + "/" + lines[k]
  {
    seq(|lines|, k requires 0 <= k < |lines| => dir + "/" + lines[k])
  }

  /** The loop of aniToFileList: each line, in order, with `dir + "/"` in front. */
  method PrefixEach(dir: string, lines: seq<string>) returns (entries: seq<string>)
    ensures entries == Prefixed(dir, lines)
  {
    entries := [];
    var i := 0;
    while i < |lines|
      invariant 0 <= i <= |lines|
      invariant |entries| == i
      invariant forall k :: 0 <= k < i ==> entries[k] == dir + "/" + lines[k]
    {
      entries := entries + [dir + "/" + lines[i]];
      i := i + 1;
    }
  }

  /** aniToFileList(ani): the manifest's lines, as `split("\n")` cuts them,
      each prefixed with the manifest's directory and "/". */
  function ManifestLines(archive: Archive, ani: string): (r: Result<seq<string>, Cause>)
    ensures r.Failure? <==> ReadEntry(archive, ani).Failure?
    ensures r.Failure? ==> r.error == EntryMissing(ani)
    ensures r.Success? ==> r.value == Prefixed(ParentText(ani), SplitLines(Text(ReadEntry(archive, ani).value)))
  {
    match ReadEntry(archive, ani)
    case Failure(e) => Failure(e)
    case Success(bytes) => Success(Prefixed(ParentText(ani), SplitLines(Text(bytes))))
  }

  // ---------------------------------------------------------------------
  // Choosing the manifest

  // `file.matches(".*/" + alias + "/.*")`: the file lies somewhere below a
  // directory named `alias` (`.` matches no line terminator).
  predicate InAliasDir(file: string, alias: string) {
    NoLineTerminator(file) && Contains(file, "/" + alias + "/")
  }

  predicate MatchesAnyAlias(file: string, aliases: seq<string>) {
    exists j :: 0 <= j < |aliases| && InAliasDir(file, aliases[j])
  }

  /** Position of the first manifest, in archive order, that lies in the
      directory of any alias; |files| when none does. */
  function FirstMatch(files: seq<string>, aliases: seq<string>): (r: nat)
    ensures r <= |files|
    ensures r < |files| ==> MatchesAnyAlias(files[r], aliases)
    ensures forall k :: 0 <= k < r ==> !MatchesAnyAlias(files[k], aliases)
  {
    if files == [] then 0
    else if MatchesAnyAlias(files[0], aliases) then 0
    else 1 + FirstMatch(files[1..], aliases)
  }

  /** What the two loaders have in common once the manifests are listed: the
      frames of the first matching manifest, or why there are none. */
  datatype Selection = Selected(frames: seq<Sprite>) | Rejected(cause: Cause, closedArchive: bool)

  function Select(archive: Archive, manifests: seq<string>, aliases: seq<string>, decode: Decoder): Selection
  {
    var i := FirstMatch(manifests, aliases);
    if i == |manifests| then Rejected(NoManifest(aliases), true)
    else LoadManifest(archive, manifests[i], decode)
  }

  /** Loading the chosen manifest: its lines, then a frame per line; the
      first failure rejects it with the archive left open. */
  function LoadManifest(archive: Archive, ani: string, decode: Decoder): Selection
  {
    match ManifestLines(archive, ani)
    case Failure(e) => Rejected(e, false)
    case Success(defs) =>
      match LoadFrames(archive, defs, decode)
      case Failure(e) => Rejected(e, false)
      case Success(frames) => Selected(frames)
  }

  /** The selection contract: with no matching manifest the archive is closed
      and the aliases are reported; otherwise the first matching manifest in
      archive order is the one loaded, line by line, and any failure on the
      way (missing entry, malformed line, undecodable image) rejects it with
      that failure and leaves the archive open; by LoadAllFirstError the
      failure of a line is that of the first line that fails. */
  lemma SelectSpec(archive: Archive, manifests: seq<string>, aliases: seq<string>, decode: Decoder)
    ensures var r := Select(archive, manifests, aliases, decode);
      && ((forall k :: 0 <= k < |manifests| ==> !MatchesAnyAlias(manifests[k], aliases))
           <==> r == Rejected(NoManifest(aliases), true))
      && (r.Selected? ==> exists i :: (
           && 0 <= i < |manifests| && MatchesAnyAlias(manifests[i], aliases)
           && (forall k :: 0 <= k < i ==> !MatchesAnyAlias(manifests[k], aliases))
           && ManifestLines(archive, manifests[i]).Success?
           && LoadFrames(archive, ManifestLines(archive, manifests[i]).value, decode) == Success(r.frames)))
      && (r.Rejected? && r.closedArchive ==> r.cause == NoManifest(aliases))
    ensures var r := Select(archive, manifests, aliases, decode);
      forall i :: IsFirstMatch(manifests, aliases, i) && r.Rejected? ==> RejectedBy(archive, manifests[i], decode, r)
  {
    var i := FirstMatch(manifests, aliases);
    if i < |manifests| {
      assert !(forall k :: 0 <= k < |manifests| ==> !MatchesAnyAlias(manifests[k], aliases));
      forall j | IsFirstMatch(manifests, aliases, j)
        ensures j == i
      {
      }
    }
  }

  /** Manifest i is the first, in archive order, in an alias directory. */
  predicate IsFirstMatch(manifests: seq<string>, aliases: seq<string>, i: int) {
    && 0 <= i < |manifests| && MatchesAnyAlias(manifests[i], aliases)
    && forall k :: 0 <= k < i ==> !MatchesAnyAlias(manifests[k], aliases)
  }

  /** A rejection of manifest `ani` carries the failure of its loading and
      leaves the archive open. */
  predicate RejectedBy(archive: Archive, ani: string, decode: Decoder, r: Selection)
    requires r.Rejected?
  {
    && !r.closedArchive
    && (ManifestLines(archive, ani).Failure? ==> r.cause == ManifestLines(archive, ani).error)
    && (ManifestLines(archive, ani).Success? ==> LoadFrames(archive, ManifestLines(archive, ani).value, decode) == Failure(r.cause))
  }

  /** A concrete frame line "file a b x y", with the hotspot written as Java
      would print the integers. */
  function IntText(v: int): string
  {
    if v >= 0 then DecimalString(v) else "-" + DecimalString(-v)
  }

  /** A non-empty word with no character at or below ' '. */
  predicate IsToken(s: string) {
    s != [] && forall k :: 0 <= k < |s| ==> ' ' < s[k]
  }

  lemma IntTextIsToken(v: int)
    ensures IsToken(IntText(v))
  {
    var s := IntText(v);
    if v < 0 {
      assert forall k :: 1 <= k < |s| ==> s[k] == DecimalString(-v)[k - 1];
    }
  }

  lemma {:induction false} SplitToken(a: string, rest: string, limit: nat)
    requires limit >= 2 && IsToken(a) && (rest == [] || !IsRegexSpace(rest[0]))
    ensures SplitOnSpaces(a + " " + rest, limit) == [a] + SplitOnSpaces(rest, limit - 1)
  {
    var s := a + " " + rest;
    assert forall k :: 0 <= k < |a| ==> s[k] == a[k];
    assert s[|a|] == ' ';
    assert FirstSpace(s, 0) == |a|;
    assert SpaceRunEnd(s, |a|) == |a| + 1;
    assert s[..|a|] == a && s[|a| + 1..] == rest;
  }

  predicate AllTokens(ts: seq<string>) {
    forall k :: 0 <= k < |ts| ==> IsToken(ts[k])
  }

  lemma {:induction false} JoinEnds(ts: seq<string>)
    requires |ts| >= 1 && AllTokens(ts)
    ensures var line := Join(ts, ' ');
      |line| >= 1 && line[0] == ts[0][0] && line[|line| - 1] == ts[|ts| - 1][|ts[|ts| - 1]| - 1]
  {
    if |ts| > 1 {
      JoinEnds(ts[1..]);
    }
  }

  /** `split("\\s+", n)` of n tokens joined by single spaces gives back the tokens. */
  lemma {:induction false} SplitJoined(ts: seq<string>)
    requires |ts| >= 1 && AllTokens(ts)
    ensures SplitOnSpaces(Join(ts, ' '), |ts|) == ts
  {
    if |ts| == 1 {
      assert Join(ts, ' ') == ts[0];
    } else {
      var rest := ts[1..];
      assert AllTokens(rest);
      SplitJoined(rest);
      JoinedStartsWithToken(rest);
      JoinCons(ts);
      SplitFirstToken(ts, Join(ts, ' '), Join(rest, ' '));
    }
  }

  lemma JoinedStartsWithToken(ts: seq<string>)
    requires |ts| >= 1 && AllTokens(ts)
    ensures var line := Join(ts, ' '); line != [] && !IsRegexSpace(line[0])
  {
    JoinEnds(ts);
  }

  lemma JoinCons(ts: seq<string>)
    requires |ts| >= 2
    ensures Join(ts, ' ') == ts[0] + " " + Join(ts[1..], ' ')
  {
  }

  lemma SplitFirstToken(ts: seq<string>, line: string, tail: string)
    requires |ts| >= 2 && IsToken(ts[0]) && line == ts[0] + " " + tail
    requires tail != [] && !IsRegexSpace(tail[0]) && SplitOnSpaces(tail, |ts| - 1) == ts[1..]
    ensures SplitOnSpaces(line, |ts|) == ts
  {
    var rest := SplitOnSpaces(tail, |ts| - 1);
    SplitToken(ts[0], tail, |ts|);
    assert SplitOnSpaces(line, |ts|) == [ts[0]] + rest;
    ConsTail(ts);
  }

  lemma ConsTail(ts: seq<string>)
    requires |ts| >= 1
    ensures [ts[0]] + ts[1..] == ts
  {
  }

  /** Tokens joined by single spaces have nothing for `trim` to remove. */
  lemma TrimJoined(ts: seq<string>)
    requires |ts| >= 1 && AllTokens(ts)
    ensures Trim(Join(ts, ' ')) == Join(ts, ' ')
  {
    JoinEnds(ts);
    var line := Join(ts, ' ');
    assert ' ' < line[0] && ' ' < line[|line| - 1];
    TrimToken(line);
  }

  lemma TrimToken(line: string)
    requires line != [] && ' ' < line[0] && ' ' < line[|line| - 1]
    ensures Trim(line) == line
  {
    assert TrimStart(line) == line;
  }

  lemma ParseFields(line: string, ts: seq<string>, x: int, y: int)
    requires Trim(line) == line && SplitOnSpaces(line, 5) == ts && |ts| == 5
    requires ParseInt(ts[3]) == Some(x) && ParseInt(ts[4]) == Some(y)
    ensures ParseFrameDef(line) == Success(FrameDef(ts[0], NormalHotspot(x, y)))
  {
  }

  /** Parsing reads back a well-formed line "file f1 f2 x y": the filename is
      the first token and the hotspot the absolute values of the two numbers. */
  lemma ParseFormattedLine(file: string, f1: string, f2: string, x: int, y: int)
    requires IsToken(file) && IsToken(f1) && IsToken(f2) && IsInt32(x) && IsInt32(y)
    ensures ParseFrameDef(Join([file, f1, f2, IntText(x), IntText(y)], ' '))
            == Success(FrameDef(file, NormalHotspot(x, y)))
  {
    var ts := [file, f1, f2, IntText(x), IntText(y)];
    assert AllTokens(ts) by {
      IntTextIsToken(x);
      IntTextIsToken(y);
    }
    ParseTokens(ts, x, y);
  }

  lemma ParseTokens(ts: seq<string>, x: int, y: int)
    requires |ts| == 5 && AllTokens(ts) && IsInt32(x) && IsInt32(y)
    requires ts[3] == IntText(x) && ts[4] == IntText(y)
    ensures ParseFrameDef(Join(ts, ' ')) == Success(FrameDef(ts[0], NormalHotspot(x, y)))
  {
    var line := Join(ts, ' ');
    TrimJoined(ts);
    assert SplitOnSpaces(line, 5) == ts by {
      SplitJoined(ts);
    }
    assert ParseInt(ts[3]) == Some(x) && ParseInt(ts[4]) == Some(y) by {
      ParseDecimal(x);
      ParseDecimal(y);
    }
    ParseFields(line, ts, x, y);
  }
}
