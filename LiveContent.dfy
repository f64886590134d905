/**
 * Content.java of the live wallpaper (package uqmlivewallpaper): the
 * content-pack loader. The constructor lists the `.ani` manifests of the
 * pack, picks the first one that lies in a directory named after one of the
 * race's aliases, and loads every frame the manifest lists; any exception on
 * the way becomes an IOException. Copying the content pack into the cache directory
 * (setupContent) is not modelled: the constructor is given the opened
 * archive.
 */
module LiveContent {
  import opened Wrappers
  import opened JavaText
  import opened Catalog

  // ---------------------------------------------------------------------
  // Which entries are manifests

  /** `name.matches(".*comm/.*\\.ani")`, the regex read directly: the name is
      some text, "comm/", some text, ".ani", where neither stretch of text
      holds a line terminator (`.` does not match one). */
  ghost predicate MatchesManifestRegex(name: string) {
    exists a: string, b: string :: (
      && NoLineTerminator(a) && NoLineTerminator(b)
      && name == a + "comm/" + b + ".ani")
  }

  /** The same test, decided: no line terminator anywhere, the ".ani" suffix,
      and "comm/" somewhere before that suffix. */
  predicate IsManifestName(name: string) {
    && NoLineTerminator(name)
    && EndsWith(name, ".ani")
    && Contains(name[..|name| - 4], "comm/")
  }

  lemma ManifestNameMatches(name: string)
    requires IsManifestName(name)
    ensures MatchesManifestRegex(name)
  {
    var body := name[..|name| - 4];
    var j := ContainsWitness(body, "comm/");
    var a, b := body[..j], body[j + 5..];
    assert body == a + "comm/" + b;
    assert name == body + ".ani";
    assert NoLineTerminator(a) by {
      assert forall k :: 0 <= k < |a| ==> a[k] == name[k];
    }
    assert NoLineTerminator(b) by {
      assert forall k :: 0 <= k < |b| ==> b[k] == name[j + 5 + k];
    }
    assert name == a + "comm/" + b + ".ani";
  }

  lemma RegexMatchIsManifestName(name: string, a: string, b: string)
    requires NoLineTerminator(a) && NoLineTerminator(b)
    requires name == a + "comm/" + b + ".ani"
    ensures IsManifestName(name)
  {
    var body := name[..|name| - 4];
    assert body == a + "comm/" + b;
    assert OccursAt(body, "comm/", |a|);
    ContainsAt(body, "comm/", |a|);
    forall k | 0 <= k < |name| ensures !IsLineTerminator(name[k]) {
      if k < |a| {
        assert name[k] == a[k];
      } else if k < |a| + 5 {
        assert name[k] == "comm/"[k - |a|];
      } else if k < |a| + 5 + |b| {
        assert name[k] == b[k - |a| - 5];
      } else {
        assert name[k] == ".ani"[k - |a| - 5 - |b|];
      }
    }
  }

  /** The decided test accepts exactly what the regex matches. */
  lemma ManifestNameIsRegex(name: string)
    ensures IsManifestName(name) <==> MatchesManifestRegex(name)
  {
    if IsManifestName(name) {
      ManifestNameMatches(name);
    }
    if MatchesManifestRegex(name) {
      var a: string, b: string :| (
        && NoLineTerminator(a) && NoLineTerminator(b)
        && name == a + "comm/" + b + ".ani");
      RegexMatchIsManifestName(name, a, b);
    }
  }

  /** listFilesMatching(".*comm/.*\\.ani"): the names of the manifests, in
      archive enumeration order. */
  method ListFilesMatching(archive: Archive) returns (files: seq<string>)
    ensures files == EntryNames(archive, IsManifestName)
  {
    files := [];
    var i := 0;
    while i < |archive|
      invariant 0 <= i <= |archive|
      invariant files == EntryNames(archive[..i], IsManifestName)
    {
      var name := archive[i].name;
      assert archive[..i + 1][..i] == archive[..i];
      if IsManifestName(name) {
        files := files + [name];
      }
      i := i + 1;
    }
    assert archive[..i] == archive;
  }

  // ---------------------------------------------------------------------
  // The other loops of the class

  /** assetMatching(match, items): the first item ending with `match`, or
      null when none does. */
  method AssetMatching(suffix: string, items: seq<string>) returns (r: Option<string>)
    ensures r.None? <==> forall k :: 0 <= k < |items| ==> !EndsWith(items[k], suffix)
    ensures r.Some? ==> exists i :: (
      && 0 <= i < |items| && items[i] == r.value && EndsWith(r.value, suffix)
      && forall k :: 0 <= k < i ==> !EndsWith(items[k], suffix))
  {
    var i := 0;
    while i < |items|
      invariant 0 <= i <= |items|
      invariant forall k :: 0 <= k < i ==> !EndsWith(items[k], suffix)
    {
      if EndsWith(items[i], suffix) {
        return Some(items[i]);
      }
      i := i + 1;
    }
    return None;
  }

  /** aniToFileList(ani): the manifest's lines, each prefixed with the
      manifest's directory and "/"; a manifest missing from the archive makes
      readFromContentPack dereference null. */
  method AniToFileList(archive: Archive, ani: string) returns (r: Result<seq<string>, Cause>)
    ensures r == ManifestLines(archive, ani)
  {
    var basedir := ParentText(ani);
    var read := ReadEntry(archive, ani);
    if read.Failure? {
      return Failure(read.error);
    }
    var lines := SplitLines(Text(read.value));
    var entries := PrefixEach(basedir, lines);
    return Success(entries);
  }

  // ---------------------------------------------------------------------
  // The constructor

  /** The catch block: every exception, the "tried" IOException included,
      becomes a new IOException("error loading content: " + e). */
  function Outcome(s: Selection): (o: Outcome)
    ensures o.Threw? ==> o.error.wrapped
  {
    match s
    case Selected(frames) => Built(frames)
    case Rejected(cause, closed) => Threw(LoadError(cause, true), closed)
  }

  /** The value of `new Content(alien_races, c)` once the content pack is open. */
  function Content(archive: Archive, aliases: seq<string>, decode: Decoder): Outcome
  {
    Outcome(Select(archive, EntryNames(archive, IsManifestName), aliases, decode))
  }

  /** The body of the innermost `if`: read the manifest, build its frames,
      and leave the constructor normally or by the exception raised. */
  method LoadFrom(archive: Archive, ani: string, decode: Decoder) returns (o: Outcome)
    ensures o == Outcome(LoadManifest(archive, ani, decode))
  {
    var lines := AniToFileList(archive, ani);
    if lines.Failure? {
      return Threw(LoadError(lines.error, true), false);
    }
    var frames := LoadLines(archive, lines.value, decode);
    match frames
    case Failure(e) => return Threw(LoadError(e, true), false);
    case Success(f) => return Built(f);
  }

  /** Content(String[] alien_races, Context c): scan the manifests in archive
      order and, inside, the aliases in order; the first hit loads that
      manifest's frames one line at a time and returns. */
  method Load(archive: Archive, aliases: seq<string>, decode: Decoder) returns (o: Outcome)
    ensures o == Content(archive, aliases, decode)
  {
    var races := ListFilesMatching(archive);
    for i := 0 to |races|
      invariant forall k :: 0 <= k < i ==> !MatchesAnyAlias(races[k], aliases)
    {
      for j := 0 to |aliases|
        invariant forall a :: 0 <= a < j ==> !InAliasDir(races[i], aliases[a])
      {
        if InAliasDir(races[i], aliases[j]) {
          assert FirstMatch(races, aliases) == i by {
            FirstMatchIs(races, aliases, i);
          }
          o := LoadFrom(archive, races[i], decode);
          return;
        }
      }
    }
    assert FirstMatch(races, aliases) == |races| by {
      FirstMatchIs(races, aliases, |races|);
    }
    return Threw(LoadError(NoManifest(aliases), true), true);
  }

  /** `for (String frame : aniToFileList(file)) this.frame.add(new Frame(frame))`:
      the frames built so far, or the exception of the first line that fails. */
  method LoadLines(archive: Archive, lines: seq<string>, decode: Decoder)
      returns (r: Result<seq<Sprite>, Cause>)
    ensures r == LoadFrames(archive, lines, decode)
  {
    var load := FrameLoader(archive, decode);
    var frames := [];
    for k := 0 to |lines|
      invariant LoadAll(lines[..k], load) == Success(frames)
    {
      LoadAllExtend(lines, k, load, frames);
      var f := load(lines[k]);
      if f.Failure? {
        LoadAllAbort(lines, k + 1, load);
        return Failure(f.error);
      }
      frames := frames + [f.value];
    }
    assert lines[..|lines|] == lines;
    return Success(frames);
  }

  /** The position the scan stops at is `FirstMatch`. */
  lemma FirstMatchIs(files: seq<string>, aliases: seq<string>, i: nat)
    requires i <= |files|
    requires forall k :: 0 <= k < i ==> !MatchesAnyAlias(files[k], aliases)
    requires i < |files| ==> MatchesAnyAlias(files[i], aliases)
    ensures FirstMatch(files, aliases) == i
  {

  }
}
