/**
 * The resource generator `tools/mkresources.py`: for each LOCDATA
 * descriptor of an alien's communication screen it writes one Android
 * resource file holding
 *   - a string-array `<race>_content` with every directory name the race
 *     has had in content packs,
 *   - one integer-array `<race>_anim<i>` per ambient-animation tuple, and
 *   - a string-array `<race>`, the lookup table the wallpaper's animation
 *     constructor reads: the content array first, then the animation
 *     arrays from last to first.
 * Parsing the C sources, evaluating the descriptor tuples and writing XML
 * are not modelled: the race's source path, the descriptor's name, its
 * NumAnimations field and its evaluated tuples are the inputs here.
 */
module Resources {
  import opened Wrappers
  import opened JavaText

  // ---------------------------------------------------------------------
  // all_variants

  /** The other names each race's directory has had in content packs. */
  const KnownVariants: map<string, seq<string>> := map[
    "blackur" := ["kohrah"],
    "comandr" := ["commander"],
    "starbas" := ["comandr", "commander"],
    "melnorm" := ["melnorme"],
    "shofixt" := ["shofixti"],
    "slyland" := ["slylandro"],
    "talkpet" := ["talkingpet"],
    "thradd" := ["thraddash"],
    "zoqfot" := ["zoqfotpik"]
  ]

  /** `all_variants(alien)`: the name itself, then its known variants; a
      name the table lacks (the KeyError that is caught) gives only itself. */
  function AllVariants(alien: string): (r: seq<string>)
    ensures |r| >= 1 && r[0] == alien
    ensures alien !in KnownVariants ==> r == [alien]
  {
    [alien] + (if alien in KnownVariants then KnownVariants[alien] else [])
  }

  /** After the name come exactly the known variants, in table order. */
  lemma VariantsFollowName(alien: string)
    requires alien in KnownVariants
    ensures AllVariants(alien)[1..] == KnownVariants[alien]
    ensures |AllVariants(alien)| == 1 + |KnownVariants[alien]|
  {
    assert AllVariants(alien) == [alien] + KnownVariants[alien];
  }

  lemma VariantExamples()
    ensures AllVariants("zoqfot") == ["zoqfot", "zoqfotpik"]
    ensures AllVariants("starbas") == ["starbas", "comandr", "commander"]
    ensures AllVariants("orz") == ["orz"]
  {
    assert "orz" !in KnownVariants by {
      assert "orz" != "blackur" && "orz" != "comandr" && "orz" != "starbas";
      assert "orz" != "melnorm" && "orz" != "shofixt" && "orz" != "slyland";
      assert "orz" != "talkpet" && "orz" != "thradd" && "orz" != "zoqfot";
    }
  }

  /** A string that can be a single directory name. */
  predicate IsDirName(s: string) {
    s != [] && forall k :: 0 <= k < |s| ==> s[k] != '/'
  }

  /** Every listed variant is one directory name, so matching "/<name>/"
      in an entry's path finds that directory and no other. */
  lemma VariantsAreDirNames(alien: string, k: nat)
    requires IsDirName(alien) && k < |AllVariants(alien)|
    ensures IsDirName(AllVariants(alien)[k])
  {
    if alien in KnownVariants {
      VariantsFollowName(alien);
    }
  }

  // ---------------------------------------------------------------------
  // The race: os.path.basename(os.path.dirname(input_file))

  predicate AllSlashes(s: string) {
    forall k :: 0 <= k < |s| ==> s[k] == '/'
  }

  function StripTrailingSlashes(s: string): (r: string)
    ensures |r| <= |s| && r == s[..|r|]
    ensures r == [] || r[|r| - 1] != '/'
    ensures forall k :: |r| <= k < |s| ==> s[k] == '/'
  {
    if s != [] && s[|s| - 1] == '/' then StripTrailingSlashes(s[..|s| - 1]) else s
  }

  /** `posixpath.dirname`: everything up to the last '/', with the trailing
      slashes dropped unless nothing but slashes is left. */
  function Dirname(p: string): string
  {
    var head := p[..LastIndexOf(p, '/') + 1];
    if head != [] && !AllSlashes(head) then StripTrailingSlashes(head) else head
  }

  /** `posixpath.basename`: everything after the last '/'. */
  function Basename(p: string): (r: string)
    ensures forall k :: 0 <= k < |r| ==> r[k] != '/'
  {
    p[LastIndexOf(p, '/') + 1..]
  }

  function Race(inputFile: string): string
  {
    Basename(Dirname(inputFile))
  }

  /** The race is the name of the directory holding the source file. */
  lemma RaceOfPath(prefix: string, race: string, file: string)
    requires prefix == [] || prefix[|prefix| - 1] == '/'
    requires IsDirName(race) && forall k :: 0 <= k < |file| ==> file[k] != '/'
    ensures Race(prefix + race + "/" + file) == race
  {
    DirnameOfPath(prefix, race, file);
    BasenameOfPath(prefix, race);
  }

  lemma DirnameOfPath(prefix: string, race: string, file: string)
    requires IsDirName(race) && forall k :: 0 <= k < |file| ==> file[k] != '/'
    ensures Dirname(prefix + race + "/" + file) == prefix + race
  {
    var p := prefix + race + "/" + file;
    var cut := |prefix| + |race|;
    assert forall k :: cut < k < |p| ==> p[k] == file[k - cut - 1];
    LastSlashAt(p, cut);
    var head := p[..cut + 1];
    assert head == (prefix + race) + "/";
    assert head[|head| - 2] == race[|race| - 1];
    assert head[..|head| - 1] == prefix + race;
  }

  lemma BasenameOfPath(prefix: string, race: string)
    requires prefix == [] || prefix[|prefix| - 1] == '/'
    requires IsDirName(race)
    ensures Basename(prefix + race) == race
  {
    var dir := prefix + race;
    assert forall k :: |prefix| <= k < |dir| ==> dir[k] == race[k - |prefix|];
    if prefix == [] {
      assert dir == race;
    } else {
      LastSlashAt(dir, |prefix| - 1);
    }
    assert dir[|prefix|..] == race;
  }

  lemma LastSlashAt(p: string, j: nat)
    requires j < |p| && p[j] == '/' && forall k :: j < k < |p| ==> p[k] != '/'
    ensures LastIndexOf(p, '/') == j
  {
  }

  // ---------------------------------------------------------------------
  // The output file name

  predicate NoNewline(s: string) {
    forall k :: 0 <= k < |s| ==> s[k] != '\n'
  }

  /** Whether `desc((?!_1x).+)$` matches at position p of a name without a
      newline: "desc" at p, not followed by "_1x", then at least one
      character up to the end. */
  predicate DescMatchAt(name: string, p: nat) {
    p + 4 < |name| && name[p..p + 4] == "desc" && !StartsWith(name[p + 4..], "_1x")
  }

  /** `re.search`: the leftmost position at or after `from` where the
      pattern matches. */
  function DescSearch(name: string, from: nat): (r: Option<nat>)
    ensures r.Some? ==> from <= r.value && DescMatchAt(name, r.value)
    ensures r.Some? ==> forall q :: from <= q < r.value ==> !DescMatchAt(name, q)
    ensures r.None? ==> forall q :: from <= q ==> !DescMatchAt(name, q)
    decreases |name| - from
  {
    if from + 4 >= |name| then None
    else if DescMatchAt(name, from) then Some(from)
    else DescSearch(name, from + 1)
  }

  /** The file a descriptor is written to: the race followed by the group
      the search captured when it matches, then ".xml". */
  function OutputFileName(race: string, descName: string): string
    requires NoNewline(descName) && '\\' !in race
  {
    match DescSearch(descName, 0)
    case Some(p) => race + descName[p + 4..] + ".xml"
    case None => race + ".xml"
  }

  /** The suffix after the leftmost "desc" that has one, unless it starts
      with "_1x", becomes part of the file name; without one the file is
      `<race>.xml`. */
  lemma OutputFileNameRule(race: string, descName: string)
    requires NoNewline(descName) && '\\' !in race
    ensures (forall p: nat :: !DescMatchAt(descName, p)) ==> OutputFileName(race, descName) == race + ".xml"
    ensures forall p: nat :: DescMatchAt(descName, p) && (forall q: nat :: q < p ==> !DescMatchAt(descName, q)) ==>
      OutputFileName(race, descName) == race + descName[p + 4..] + ".xml"
  {
    match DescSearch(descName, 0)
    case None =>
    case Some(p0) =>
      forall p: nat | DescMatchAt(descName, p) && (forall q: nat :: q < p ==> !DescMatchAt(descName, q))
        ensures p == p0
      {
      }
  }

  /** No match can start where there is no 'd'. */
  lemma NoDescAt(name: string, p: nat)
    requires p < |name| && name[p] != 'd'
    ensures !DescMatchAt(name, p)
  {
    if p + 4 < |name| {
      assert name[p..p + 4][0] == name[p];
    }
  }

  lemma PlainNameExample()
    ensures OutputFileName("orz", "orz_desc") == "orz.xml"
  {
    var name := "orz_desc";
    forall p: nat ensures !DescMatchAt(name, p) {
      if p < 4 {
        assert p == 0 || p == 1 || p == 2 || p == 3;
        NoDescAt(name, p);
      }
    }
    OutputFileNameRule("orz", name);
  }

  lemma HiResNameExample()
    ensures OutputFileName("orz", "orz_desc_4x") == "orz_4x.xml"
  {
    var name := "orz_desc_4x";
    assert name[4..8] == "desc" && name[8..] == "_4x";
    assert !StartsWith(name[8..], "_1x") by {
      assert name[8..][..3][1] == '4';
    }
    NoDescAt(name, 0);
    NoDescAt(name, 1);
    NoDescAt(name, 2);
    NoDescAt(name, 3);
    assert DescSearch(name, 0) == DescSearch(name, 4) == Some(4);
    assert "orz" + name[8..] + ".xml" == "orz_4x.xml";
  }

  lemma LowResNameExample()
    ensures OutputFileName("orz", "orz_desc_1x") == "orz.xml"
  {
    var name := "orz_desc_1x";
    forall p: nat ensures !DescMatchAt(name, p) {
      if p == 4 {
        assert name[8..] == "_1x";
      } else if p < 7 {
        assert p == 0 || p == 1 || p == 2 || p == 3 || p == 5 || p == 6;
        NoDescAt(name, p);
      }
    }
    OutputFileNameRule("orz", name);
  }

  // ---------------------------------------------------------------------
  // The resource file of one descriptor

  datatype Element =
    | StringArray(name: string, items: seq<string>)
    | IntegerArray(name: string, values: seq<int>)

  datatype ResourceFile = ResourceFile(fileName: string, elements: seq<Element>)

  function ContentName(race: string): string { race + "_content" }

  /** `"%s_anim%d" % (race, index)` */
  function AnimName(race: string, index: nat): string { race + "_anim" + DecimalString(index) }

  /** Distinct tuples get distinct array names. */
  lemma AnimNamesDistinct(race: string, i: nat, j: nat)
    requires AnimName(race, i) == AnimName(race, j)
    ensures i == j
  {
    var a, b := AnimName(race, i), AnimName(race, j);
    var n := |race| + 5;
    assert a[n..] == DecimalString(i) && b[n..] == DecimalString(j);
    DecimalRoundTrip(i);
    DecimalRoundTrip(j);
  }

  /** The lookup table: the content array's name, then the animation
      arrays' names from the last to the first. */
  function LookupTable(race: string, n: nat): (r: seq<string>)
    ensures |r| == n + 1 && r[0] == ContentName(race)
    ensures forall k :: 1 <= k <= n ==> r[k] == AnimName(race, n - k)
  {
    [ContentName(race)] + seq(n, k requires 0 <= k < n => AnimName(race, n - 1 - k))
  }

  /** One integer-array per evaluated tuple, named by its index. */
  function AnimArrays(race: string, animations: seq<seq<int>>): (r: seq<Element>)
    ensures |r| == |animations|
    ensures forall i :: 0 <= i < |r| ==> r[i] == IntegerArray(AnimName(race, i), animations[i])
  {
    seq(|animations|, i requires 0 <= i < |animations| => IntegerArray(AnimName(race, i), animations[i]))
  }

  /** The file main writes for a descriptor with animations. */
  function Resource(inputFile: string, descName: string, animations: seq<seq<int>>): ResourceFile
    requires NoNewline(descName) && '\\' !in Race(inputFile)
  {
    var race := Race(inputFile);
    ResourceFile(
      OutputFileName(race, descName),
      [StringArray(ContentName(race), AllVariants(race))]
      + AnimArrays(race, animations)
      + [StringArray(race, LookupTable(race, |animations|))])
  }

  /** Every name in the lookup table names an array of the same file: the
      first a string-array of content directories, each other one the
      integer-array of the tuple it stands for. */
  lemma TableNamesResolve(inputFile: string, descName: string, animations: seq<seq<int>>)
    requires NoNewline(descName) && '\\' !in Race(inputFile)
    ensures var race := Race(inputFile);
      var f := Resource(inputFile, descName, animations);
      var n := |animations|;
      && |f.elements| == n + 2
      && f.elements[0] == StringArray(LookupTable(race, n)[0], AllVariants(race))
      && (forall k :: 1 <= k <= n ==>
            f.elements[n - k + 1] == IntegerArray(LookupTable(race, n)[k], animations[n - k]))
      && f.elements[n + 1] == StringArray(race, LookupTable(race, n))
  {
    var race := Race(inputFile);
    var n := |animations|;
    var es := Resource(inputFile, descName, animations).elements;
    var anims := AnimArrays(race, animations);
    forall k | 1 <= k <= n
      ensures es[n - k + 1] == IntegerArray(LookupTable(race, n)[k], animations[n - k])
    {
      assert es[n - k + 1] == anims[n - k];
    }
  }

  /** `arrays.reverse()` */
  function Reversed<T>(s: seq<T>): (r: seq<T>)
    ensures |r| == |s|
    ensures forall k :: 0 <= k < |s| ==> r[k] == s[|s| - 1 - k]
  {
    seq(|s|, k requires 0 <= k < |s| => s[|s| - 1 - k])
  }

  /** Popping the last item of the reversed list and then walking the rest
      puts the first item in front of the others reversed. */
  lemma ReverseThenPop<T>(s: seq<T>)
    requires |s| >= 1
    ensures var r := Reversed(s); [r[|r| - 1]] + r[..|r| - 1] == [s[0]] + Reversed(s[1..])
  {
    var r := Reversed(s);
    var t := [r[|r| - 1]] + r[..|r| - 1];
    var u := [s[0]] + Reversed(s[1..]);
    assert |t| == |u|;
    forall k | 0 <= k < |t| ensures t[k] == u[k] {
      if k > 0 {
        assert t[k] == r[k - 1] == s[|s| - k];
      }
    }
  }

  /** `list.reverse()`, in place. */
  method Reverse<T>(a: array<T>)
    modifies a
    ensures a[..] == Reversed(old(a[..]))
  {
    var lo, hi := 0, a.Length - 1;
    while lo < hi
      invariant 0 <= lo <= a.Length && hi == a.Length - 1 - lo
      invariant forall k :: 0 <= k < lo || hi < k < a.Length ==> a[k] == old(a[a.Length - 1 - k])
      invariant forall k :: lo <= k <= hi ==> a[k] == old(a[k])
    {
      a[lo], a[hi] := a[hi], a[lo];
      lo, hi := lo + 1, hi - 1;
    }
  }

  /** One pass of main's loop over the descriptors: no file when the
      descriptor has no animations, otherwise the file of its content
      array, animation arrays and lookup table. */
  method EmitDesc(inputFile: string, descName: string, numAnimations: int, animations: seq<seq<int>>)
    returns (r: Option<ResourceFile>)
    requires NoNewline(descName) && '\\' !in Race(inputFile)
    ensures r.None? <==> numAnimations < 1
    ensures r.Some? ==> r.value == Resource(inputFile, descName, animations)
  {
    if numAnimations < 1 {
      return None;
    }
    var race := Race(inputFile);
    var arrays, elements := AddArrays(race, animations);
    var table := TableOrder(arrays);
    TableFromList(race, arrays, table);
    elements := elements + [StringArray(race, table)];
    return Some(ResourceFile(OutputFileName(race, descName), elements));
  }

  /** The content array, then one integer-array per tuple, each name
      appended to `arrays` as its element is added. */
  method AddArrays(race: string, animations: seq<seq<int>>) returns (arrays: seq<string>, elements: seq<Element>)
    ensures |arrays| == |animations| + 1 && arrays[0] == ContentName(race)
    ensures forall i :: 0 <= i < |animations| ==> arrays[i + 1] == AnimName(race, i)
    ensures elements == [StringArray(ContentName(race), AllVariants(race))] + AnimArrays(race, animations)
  {
    arrays := [];
    var name := ContentName(race);
    arrays := arrays + [name];
    elements := [StringArray(name, AllVariants(race))];
    for index := 0 to |animations|
      invariant |arrays| == index + 1 && arrays[0] == ContentName(race)
      invariant forall i :: 0 <= i < index ==> arrays[i + 1] == AnimName(race, i)
      invariant elements == [StringArray(ContentName(race), AllVariants(race))] + AnimArrays(race, animations[..index])
    {
      name := AnimName(race, index);
      elements := elements + [IntegerArray(name, animations[index])];
      arrays := arrays + [name];
    }
    assert animations[..|animations|] == animations;
  }

  /** `arrays.reverse()`, then `arrays.pop()` for the first item and the
      rest in their reversed order. */
  method TableOrder(arrays: seq<string>) returns (table: seq<string>)
    requires |arrays| >= 1
    ensures table == [arrays[0]] + Reversed(arrays[1..])
  {
    var buffer := new string[|arrays|](k requires 0 <= k < |arrays| => arrays[k]);
    assert buffer[..] == arrays;
    Reverse(buffer);
    var last := buffer.Length - 1;
    table := [buffer[last]];
    for k := 0 to last
      invariant table == [buffer[last]] + buffer[..k]
    {
      table := table + [buffer[k]];
    }
    ReverseThenPop(arrays);
  }

  lemma TableFromList(race: string, arrays: seq<string>, table: seq<string>)
    requires |arrays| >= 1 && arrays[0] == ContentName(race)
    requires forall i :: 0 <= i < |arrays| - 1 ==> arrays[i + 1] == AnimName(race, i)
    requires table == [arrays[0]] + Reversed(arrays[1..])
    ensures table == LookupTable(race, |arrays| - 1)
  {
  }
}
