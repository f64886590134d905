/**
 * Content.java of the original wallpaper (package uqmwallpaper): the same
 * loader as the live wallpaper's, except that manifests are found with
 * `contains(prefix) && endsWith(suffix)` instead of a regex, IOExceptions
 * propagate unchanged (only other exceptions are wrapped), and a second,
 * stub constructor only checks that a pack holds any manifest at all.
 * Opening the zip file by name is not modelled: the constructors are given
 * the opened archive.
 */
module LegacyContent {
  import opened Wrappers
  import opened JavaText
  import opened Catalog
  import LiveContent

  /** `name.contains(prefix) && name.endsWith(suffix)`. */
  function NameFilter(prefix: string, suffix: string): string -> bool
  {
    name => Contains(name, prefix) && EndsWith(name, suffix)
  }

  /** The manifests both constructors look for: names containing "comm/" and
      ending in ".ani". */
  predicate IsManifestName(name: string) {
    NameFilter("comm/", ".ani")(name)
  }

  /** listFilesMatching(zipfile, prefix, suffix): the names that contain
      `prefix` and end with `suffix`, in archive enumeration order. */
  method ListFilesMatching(archive: Archive, prefix: string, suffix: string) returns (files: seq<string>)
    ensures files == EntryNames(archive, NameFilter(prefix, suffix))
  {
    var keep := NameFilter(prefix, suffix);
    files := [];
    var i := 0;
    while i < |archive|
      invariant 0 <= i <= |archive|
      invariant files == EntryNames(archive[..i], keep)
    {
      var name := archive[i].name;
      assert archive[..i + 1][..i] == archive[..i];
      if Contains(name, prefix) && EndsWith(name, suffix) {
        files := files + [name];
      }
      i := i + 1;
    }
    assert archive[..i] == archive;
  }

  /** Content(String zipfile), the stub constructor: it returns normally when
      the content pack holds at least one manifest, and otherwise throws
      IOException("no content found"). */
  method CheckPack(archive: Archive) returns (r: Option<Cause>)
    ensures r.None? <==> exists k :: 0 <= k < |archive| && IsManifestName(archive[k].name)
    ensures r.Some? ==> r.value == NoContent
  {
    var races := ListFilesMatching(archive, "comm/", ".ani");
    if |races| < 1 {
      return Some(NoContent);
    }
    assert races[0] in races;
    return None;
  }

  /** aniToFileList(zipfile, ani): identical to the live wallpaper's. */
  method AniToFileList(archive: Archive, ani: string) returns (r: Result<seq<string>, Cause>)
    ensures r == ManifestLines(archive, ani)
  {
    var basedir := ParentText(ani);
    var read := ReadEntry(archive, ani);
    if read.Failure? {
      return Failure(read.error);
    }
    var lines := SplitLines(Text(read.value));
    var entries := PrefixEach(basedir, lines);
    return Success(entries);
  }

  /** `catch (IOException ioe) { throw ioe; } catch (Exception e) { throw new
      IOException(...) }`: an IOException (the "tried" one, an undecodable
      image) is rethrown unchanged, anything else is wrapped. */
  function Outcome(s: Selection): (o: Outcome)
    ensures o.Threw? ==> (o.error.wrapped <==> !o.error.cause.IsIOException())
  {
    match s
    case Selected(frames) => Built(frames)
    case Rejected(cause, closed) => Threw(LoadError(cause, !cause.IsIOException()), closed)
  }

  /** The value of `new Content(zipfile, alien_races)` once the zip is open. */
  function Content(archive: Archive, aliases: seq<string>, decode: Decoder): Outcome
  {
    Outcome(Select(archive, EntryNames(archive, NameFilter("comm/", ".ani")), aliases, decode))
  }

  /** The body of the innermost `if`: read the manifest, build its frames,
      and leave the constructor normally or by the exception raised. */
  method LoadFrom(archive: Archive, ani: string, decode: Decoder) returns (o: Outcome)
    ensures o == Outcome(LoadManifest(archive, ani, decode))
  {
    var lines := AniToFileList(archive, ani);
    if lines.Failure? {
      return Threw(LoadError(lines.error, !lines.error.IsIOException()), false);
    }
    var frames := LiveContent.LoadLines(archive, lines.value, decode);
    match frames
    case Failure(e) => return Threw(LoadError(e, !e.IsIOException()), false);
    case Success(f) => return Built(f);
  }

  /** Content(String zipfile, String[] alien_races): the same nested scan as
      the live wallpaper's constructor, with its own filter and exception
      handling. */
  method Load(archive: Archive, aliases: seq<string>, decode: Decoder) returns (o: Outcome)
    ensures o == Content(archive, aliases, decode)
  {
    var races := ListFilesMatching(archive, "comm/", ".ani");
    for i := 0 to |races|
      invariant forall k :: 0 <= k < i ==> !MatchesAnyAlias(races[k], aliases)
    {
      for j := 0 to |aliases|
        invariant forall a :: 0 <= a < j ==> !InAliasDir(races[i], aliases[a])
      {
        if InAliasDir(races[i], aliases[j]) {
          assert FirstMatch(races, aliases) == i by {
            LiveContent.FirstMatchIs(races, aliases, i);
          }
          o := LoadFrom(archive, races[i], decode);
          return;
        }
      }
    }
    assert FirstMatch(races, aliases) == |races| by {
      LiveContent.FirstMatchIs(races, aliases, |races|);
    }
    return Threw(LoadError(NoManifest(aliases), false), true);
  }

  // ---------------------------------------------------------------------
  // The two filters

  /** "comm/" ends in '/', which ".ani" does not hold, so an occurrence of
      "comm/" in a name ending in ".ani" ends before that suffix. */
  lemma CommBeforeSuffix(name: string)
    requires IsManifestName(name)
    ensures Contains(name[..|name| - 4], "comm/")
  {
    var j := ContainsWitness(name, "comm/");
    var n := |name|;
    assert name[j + 4] == '/' by {
      assert name[j..j + 5][4] == "comm/"[4];
    }
    assert forall k :: n - 4 <= k < n ==> name[k] != '/' by {
      forall k | n - 4 <= k < n ensures name[k] != '/' {
        assert name[k] == name[n - 4..][k - (n - 4)];
      }
    }
    assert OccursAt(name[..n - 4], "comm/", j) by {
      assert name[..n - 4][j..j + 5] == name[j..j + 5];
    }
    ContainsAt(name[..n - 4], "comm/", j);
  }

  lemma CommInName(name: string)
    requires EndsWith(name, ".ani") && Contains(name[..|name| - 4], "comm/")
    ensures Contains(name, "comm/")
  {
    var j := ContainsWitness(name[..|name| - 4], "comm/");
    assert name[j..j + 5] == name[..|name| - 4][j..j + 5];
    ContainsAt(name, "comm/", j);
  }

  /** On names without line terminators the old filter and the new regex
      accept the same manifests. */
  lemma FiltersAgree(name: string)
    requires NoLineTerminator(name)
    ensures IsManifestName(name) <==> LiveContent.IsManifestName(name)
  {
    if IsManifestName(name) {
      CommBeforeSuffix(name);
    }
    if LiveContent.IsManifestName(name) {
      CommInName(name);
    }
  }

  /** A name holding a newline separates the two: the old filter accepts
      "comm/\n.ani", the regex does not. */
  lemma FiltersDifferOnNewline()
    ensures IsManifestName("comm/\n.ani") && !LiveContent.IsManifestName("comm/\n.ani")
  {
    var name := "comm/\n.ani";
    assert OccursAt(name, "comm/", 0);
    ContainsAt(name, "comm/", 0);
    assert IsLineTerminator(name[5]);
  }

  /** Two filters that agree on every name of the archive list the same
      manifests, so for a pack without line terminators in its names both
      loaders see the same candidates in the same order. */
  lemma {:induction false} EntryNamesAgree(archive: Archive, p: string -> bool, q: string -> bool)
    requires forall k :: 0 <= k < |archive| ==> p(archive[k].name) == q(archive[k].name)
    ensures EntryNames(archive, p) == EntryNames(archive, q)
  {
    if archive != [] {
      var init := archive[..|archive| - 1];
      assert forall k :: 0 <= k < |init| ==> init[k] == archive[k];
      EntryNamesAgree(init, p, q);
    }
  }

  lemma SameManifests(archive: Archive)
    requires forall k :: 0 <= k < |archive| ==> NoLineTerminator(archive[k].name)
    ensures EntryNames(archive, NameFilter("comm/", ".ani")) == EntryNames(archive, LiveContent.IsManifestName)
  {
    forall k | 0 <= k < |archive|
      ensures NameFilter("comm/", ".ani")(archive[k].name) == LiveContent.IsManifestName(archive[k].name)
    {
      FiltersAgree(archive[k].name);
    }
    EntryNamesAgree(archive, NameFilter("comm/", ".ani"), LiveContent.IsManifestName);
  }

  /** For such a pack the two constructors load the same frames and fail for
      the same reason; they differ only in whether the exception is wrapped. */
  lemma SameSelection(archive: Archive, aliases: seq<string>, decode: Decoder)
    requires forall k :: 0 <= k < |archive| ==> NoLineTerminator(archive[k].name)
    ensures Content(archive, aliases, decode).Built? <==> LiveContent.Content(archive, aliases, decode).Built?
    ensures Content(archive, aliases, decode).Built? ==>
      Content(archive, aliases, decode).frames == LiveContent.Content(archive, aliases, decode).frames
    ensures Content(archive, aliases, decode).Threw? ==>
      && Content(archive, aliases, decode).error.cause == LiveContent.Content(archive, aliases, decode).error.cause
      && Content(archive, aliases, decode).closedArchive == LiveContent.Content(archive, aliases, decode).closedArchive
  {
    SameManifests(archive);
  }
}
