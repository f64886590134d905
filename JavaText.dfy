/**
 * The Java library operations on strings and paths that the content loader
 * relies on (String.indexOf/contains/endsWith/trim/split, Integer.parseInt,
 * java.io.File.getParent), and Python's "%d" for the resource generator,
 * written out over `string` = seq<char>.
 */
module JavaText {
  import opened Wrappers

  const INT_MIN: int := -0x8000_0000
  const INT_MAX: int := 0x7FFF_FFFF

  predicate IsInt32(x: int) { INT_MIN <= x <= INT_MAX }

  // ---------------------------------------------------------------------
  // Prefixes, suffixes, occurrences

  predicate StartsWith(s: string, p: string) { |p| <= |s| && s[..|p|] == p }

  predicate EndsWith(s: string, p: string) { |p| <= |s| && s[|s| - |p|..] == p }

  /** `t` occurs in `s` starting at position `j`. */
  predicate OccursAt(s: string, t: string, j: int) {
    0 <= j && j + |t| <= |s| && s[j..j + |t|] == t
  }

  /** `String.indexOf(t, from)`: the first occurrence of `t` at or after `from`, or -1. */
  function IndexFrom(s: string, t: string, from: nat): (r: int)
    ensures r == -1 || (from <= r && OccursAt(s, t, r))
    ensures r == -1 ==> forall j :: from <= j ==> !OccursAt(s, t, j)
    ensures r != -1 ==> forall j :: from <= j < r ==> !OccursAt(s, t, j)
    decreases |s| - from
  {
    if from + |t| > |s| then -1
    else if s[from..from + |t|] == t then from
    else IndexFrom(s, t, from + 1)
  }

  function IndexOf(s: string, t: string): int { IndexFrom(s, t, 0) }

  /** `String.contains`, which Java defines as `indexOf(t) >= 0`. */
  predicate Contains(s: string, t: string) { IndexOf(s, t) >= 0 }

  lemma ContainsIff(s: string, t: string)
    ensures Contains(s, t) <==> exists j :: OccursAt(s, t, j)
  {
    if exists j :: OccursAt(s, t, j) {
      var j :| OccursAt(s, t, j);
      assert IndexFrom(s, t, 0) != -1;
    }
  }

  lemma ContainsAt(s: string, t: string, j: int)
    requires OccursAt(s, t, j)
    ensures Contains(s, t)
  {
    ContainsIff(s, t);
  }

  /** A witness for `Contains`: the position `IndexOf` reports. */
  lemma ContainsWitness(s: string, t: string) returns (j: nat)
    requires Contains(s, t)
    ensures OccursAt(s, t, j)
  {
    j := IndexOf(s, t);
  }

  // ---------------------------------------------------------------------
  // Character classes

  /** The characters Java's regex `.` refuses to match (no DOTALL flag). */
  predicate IsLineTerminator(c: char) {
    c == '\n' || c == '\r' || c == '\U{85}' || c == '\U{2028}' || c == '\U{2029}'
  }

  predicate NoLineTerminator(s: string) {
    forall k :: 0 <= k < |s| ==> !IsLineTerminator(s[k])
  }

  /** Java's regex class `\s`: [ \t\n\x0B\f\r]. */
  predicate IsRegexSpace(c: char) {
    c == ' ' || c == '\t' || c == '\n' || c == '\U{B}' || c == '\U{C}' || c == '\r'
  }

  predicate NoRegexSpace(s: string) {
    forall k :: 0 <= k < |s| ==> !IsRegexSpace(s[k])
  }

  // ---------------------------------------------------------------------
  // String.trim(): drop every leading and trailing character <= ' '

  function TrimStart(s: string): (r: string)
    ensures |r| <= |s| && r == s[|s| - |r|..]
    ensures r == [] || ' ' < r[0]
    ensures forall k :: 0 <= k < |s| - |r| ==> s[k] <= ' '
  {
    if |s| > 0 && s[0] <= ' ' then TrimStart(s[1..]) else s
  }

  function TrimEnd(s: string): (r: string)
    ensures |r| <= |s| && r == s[..|r|]
    ensures r == [] || ' ' < r[|r| - 1]
    ensures forall k :: |r| <= k < |s| ==> s[k] <= ' '
  {
    if |s| > 0 && s[|s| - 1] <= ' ' then TrimEnd(s[..|s| - 1]) else s
  }

  function Trim(s: string): string { TrimEnd(TrimStart(s)) }

  /** What `trim` promises: the result is a slice of the input, the parts cut
      away hold only characters <= ' ', and the result starts and ends with
      a character above ' ' (or is empty). */
  lemma TrimSlice(s: string) returns (lo: nat, hi: nat)
    ensures lo <= hi <= |s| && Trim(s) == s[lo..hi]
    ensures forall k :: 0 <= k < lo ==> s[k] <= ' '
    ensures forall k :: hi <= k < |s| ==> s[k] <= ' '
    ensures Trim(s) == [] || (' ' < Trim(s)[0] && ' ' < Trim(s)[|Trim(s)| - 1])
  {
    var a := TrimStart(s);
    lo := |s| - |a|;
    var b := TrimEnd(a);
    hi := lo + |b|;
    assert b == a[..|b|];
    assert a == s[lo..];
    forall k | hi <= k < |s| ensures s[k] <= ' ' {
      assert s[k] == a[k - lo];
    }
  }

  // ---------------------------------------------------------------------
  // String.split("\\s+", limit) for a positive limit

  /** First position at or after `from` holding a `\s` character, or |s|. */
  function FirstSpace(s: string, from: nat): (r: nat)
    requires from <= |s|
    ensures from <= r <= |s|
    ensures r < |s| ==> IsRegexSpace(s[r])
    ensures forall k :: from <= k < r ==> !IsRegexSpace(s[k])
    decreases |s| - from
  {
    if from == |s| || IsRegexSpace(s[from]) then from else FirstSpace(s, from + 1)
  }

  /** End of the maximal run of `\s` characters starting at `from` (greedy `\s+`). */
  function SpaceRunEnd(s: string, from: nat): (r: nat)
    requires from <= |s|
    ensures from <= r <= |s|
    ensures r < |s| ==> !IsRegexSpace(s[r])
    ensures forall k :: from <= k < r ==> IsRegexSpace(s[k])
    decreases |s| - from
  {
    if from < |s| && IsRegexSpace(s[from]) then SpaceRunEnd(s, from + 1) else from
  }

  /** `s.split("\\s+", limit)`: at most `limit - 1` cuts at maximal runs of
      `\s`, leftmost first; the last field keeps the rest of the input
      verbatim; with a positive limit trailing empty fields are kept, and an
      input with no match is returned whole. */
  function SplitOnSpaces(s: string, limit: nat): (r: seq<string>)
    requires limit >= 1
    ensures 1 <= |r| <= limit
    decreases |s|
  {
    var i := FirstSpace(s, 0);
    if limit == 1 || i == |s| then [s]
    else [s[..i]] + SplitOnSpaces(s[SpaceRunEnd(s, i)..], limit - 1)
  }

  /** Every field but the last holds no white space, nor does the last one
      when fewer than `limit` fields came out; the last field is a suffix
      of the input. */
  lemma {:induction false} SplitFields(s: string, limit: nat)
    requires limit >= 1
    ensures FieldsOk(s, SplitOnSpaces(s, limit), limit)
    decreases |s|
  {
    var i := FirstSpace(s, 0);
    if limit > 1 && i < |s| {
      var j := SpaceRunEnd(s, i);
      SplitFields(s[j..], limit - 1);
      PrefixHasNoSpace(s, i);
      ConsFields(s, j, s[..i], SplitOnSpaces(s[j..], limit - 1), limit);
    }
  }

  /** What `split("\\s+", limit)` guarantees of the fields `r` it cut from `s`. */
  predicate FieldsOk(s: string, r: seq<string>, limit: nat) {
    && |r| >= 1
    && (forall k :: 0 <= k < |r| - 1 ==> NoRegexSpace(r[k]))
    && (|r| < limit ==> NoRegexSpace(r[|r| - 1]))
    && EndsWith(s, r[|r| - 1])
  }

  /** A non-empty run of `\s` characters: what one match of `\s+` consumes. */
  predicate IsSpaceRun(t: string) {
    |t| >= 1 && forall k :: 0 <= k < |t| ==> IsRegexSpace(t[k])
  }

  /** The fields with the separators put back between them. */
  function Interleave(fields: seq<string>, seps: seq<string>): string
    requires |fields| >= 1 && |seps| == |fields| - 1
  {
    if |fields| == 1 then fields[0]
    else fields[0] + seps[0] + Interleave(fields[1..], seps[1..])
  }

  /** Nothing is lost by `split("\\s+", limit)`: the input is its fields with
      a non-empty run of white space between each two, and every field after
      the first starts where a run ends (the match is greedy), so it does not
      start with white space. */
  lemma {:induction false} SplitRebuild(s: string, limit: nat) returns (seps: seq<string>)
    requires limit >= 1
    ensures var r := SplitOnSpaces(s, limit);
      && |seps| == |r| - 1
      && (forall k :: 0 <= k < |seps| ==> IsSpaceRun(seps[k]))
      && (forall k :: 1 <= k < |r| ==> r[k] == [] || !IsRegexSpace(r[k][0]))
      && Interleave(r, seps) == s
    decreases |s|
  {
    var i := FirstSpace(s, 0);
    if limit == 1 || i == |s| {
      seps := [];
    } else {
      var j := SpaceRunEnd(s, i);
      var tail := SplitOnSpaces(s[j..], limit - 1);
      var rest := SplitRebuild(s[j..], limit - 1);
      seps := [s[i..j]] + rest;
      var r := [s[..i]] + tail;
      assert SplitOnSpaces(s, limit) == r;
      assert r[1..] == tail && seps[1..] == rest;
      assert Interleave(r, seps) == s[..i] + s[i..j] + s[j..];
      assert s[..i] + s[i..j] + s[j..] == s;
      assert IsSpaceRun(s[i..j]) by {
        forall k | 0 <= k < j - i ensures IsRegexSpace(s[i..j][k]) {
          assert s[i..j][k] == s[i + k];
        }
      }
      if tail[0] != [] {
        InterleaveStart(tail, rest);
        assert s[j..][0] == tail[0][0];
      }
      forall k | 1 <= k < |r| ensures r[k] == [] || !IsRegexSpace(r[k][0]) {
        assert r[k] == tail[k - 1];
      }
      forall k | 0 <= k < |seps| ensures IsSpaceRun(seps[k]) {
        if k > 0 { assert seps[k] == rest[k - 1]; }
      }
    }
  }

  lemma InterleaveStart(fields: seq<string>, seps: seq<string>)
    requires |fields| >= 1 && |seps| == |fields| - 1
    ensures |fields[0]| <= |Interleave(fields, seps)|
    ensures Interleave(fields, seps)[..|fields[0]|] == fields[0]
  {
  }

  lemma PrefixHasNoSpace(s: string, i: nat)
    requires i <= |s| && forall k :: 0 <= k < i ==> !IsRegexSpace(s[k])
    ensures NoRegexSpace(s[..i])
  {
    forall k | 0 <= k < i ensures !IsRegexSpace(s[..i][k]) {
      assert s[..i][k] == s[k];
    }
  }

  lemma ConsFields(s: string, j: nat, first: string, rest: seq<string>, limit: nat)
    requires j <= |s| && limit >= 2 && NoRegexSpace(first) && FieldsOk(s[j..], rest, limit - 1)
    ensures FieldsOk(s, [first] + rest, limit)
  {
    var r := [first] + rest;
    assert forall k :: 1 <= k < |r| ==> r[k] == rest[k - 1];
    var last := rest[|rest| - 1];
    assert s[j..][|s[j..]| - |last|..] == s[|s| - |last|..];
  }

  // ---------------------------------------------------------------------
  // String.split("\n"): limit 0

  /** Joins pieces with `sep` between them (the inverse of cutting at `sep`). */
  function Join(pieces: seq<string>, sep: char): string
  {
    if |pieces| == 0 then ""
    else if |pieces| == 1 then pieces[0]
    else pieces[0] + [sep] + Join(pieces[1..], sep)
  }

  /** First position at or after `from` holding `c`, or |s|. */
  function IndexOfChar(s: string, c: char, from: nat): (r: nat)
    requires from <= |s|
    ensures from <= r <= |s|
    ensures r < |s| ==> s[r] == c
    ensures forall k :: from <= k < r ==> s[k] != c
    decreases |s| - from
  {
    if from == |s| || s[from] == c then from else IndexOfChar(s, c, from + 1)
  }

  /** Every piece between consecutive occurrences of `sep`, empty ones included. */
  function CutAll(s: string, sep: char): (r: seq<string>)
    ensures |r| >= 1
    ensures forall k :: 0 <= k < |r| ==> sep !in r[k]
    ensures sep !in s ==> r == [s]
    decreases |s|
  {
    var i := IndexOfChar(s, sep, 0);
    if i == |s| then [s]
    else
      assert sep !in s[..i];
      [s[..i]] + CutAll(s[i + 1..], sep)
  }

  lemma {:induction false} JoinCutAll(s: string, sep: char)
    ensures Join(CutAll(s, sep), sep) == s
    decreases |s|
  {
    var i := IndexOfChar(s, sep, 0);
    CutAllStep(s, sep);
    hide *;
    if i < |s| {
      var rest := CutAll(s[i + 1..], sep);
      JoinCutAll(s[i + 1..], sep);
      CutAllNonEmpty(s[i + 1..], sep);
      SplitAround(s, i, sep);
      JoinCutStep(s, s[..i], s[i + 1..], rest, sep);
    } else {
      JoinOne(s, sep);
    }
  }

  lemma SplitAround(s: string, i: nat, sep: char)
    requires i < |s| && s[i] == sep
    ensures s == s[..i] + [sep] + s[i + 1..]
  {
  }

  lemma JoinCutStep(s: string, a: string, b: string, rest: seq<string>, sep: char)
    requires s == a + [sep] + b && |rest| >= 1 && Join(rest, sep) == b
    ensures Join([a] + rest, sep) == s
  {
    JoinFront(a, rest, sep);
  }

  /** One unfolding of CutAll. */
  lemma CutAllStep(s: string, sep: char)
    ensures var i := IndexOfChar(s, sep, 0);
      && (i == |s| ==> CutAll(s, sep) == [s])
      && (i < |s| ==> CutAll(s, sep) == [s[..i]] + CutAll(s[i + 1..], sep))
  {
  }

  lemma CutAllNonEmpty(s: string, sep: char)
    ensures |CutAll(s, sep)| >= 1
  {
  }

  lemma JoinOne(a: string, sep: char)
    ensures Join([a], sep) == a
  {
  }

  lemma JoinFront(a: string, rest: seq<string>, sep: char)
    requires |rest| >= 1
    ensures Join([a] + rest, sep) == a + [sep] + Join(rest, sep)
  {
    assert ([a] + rest)[1..] == rest;
  }

  /** Drops the trailing empty strings, as `split` does with a limit of 0. */
  function DropTrailingEmpty(r: seq<string>): (q: seq<string>)
    ensures |q| <= |r| && q == r[..|q|]
    ensures forall k :: |q| <= k < |r| ==> r[k] == ""
    ensures q == [] || q[|q| - 1] != ""
  {
    if |r| > 0 && r[|r| - 1] == "" then DropTrailingEmpty(r[..|r| - 1]) else r
  }

  /** `s.split("\n")`: an input without a newline comes back whole (so "" gives
      [""]); otherwise the pieces between newlines with trailing empty pieces
      removed (so "\n" gives []). */
  function SplitLines(s: string): seq<string>
  {
    if '\n' !in s then [s] else DropTrailingEmpty(CutAll(s, '\n'))
  }

  function Newlines(n: nat): string { seq(n, _ => '\n') }

  lemma {:induction false} JoinAppendEmpty(a: seq<string>, n: nat, sep: char)
    requires |a| >= 1
    ensures Join(a + seq(n, _ => ""), sep) == Join(a, sep) + seq(n, _ => sep)
    decreases |a|
  {
    if |a| == 1 {
      JoinEmpties(n, sep);
      if n > 0 {
        assert a + seq(n, _ => "") == [a[0]] + seq(n, _ => "");
        assert (a + seq(n, _ => ""))[1..] == seq(n, _ => "");
      }
    } else {
      JoinAppendEmpty(a[1..], n, sep);
      assert (a + seq(n, _ => ""))[1..] == a[1..] + seq(n, _ => "");
    }
  }

  lemma {:induction false} JoinEmpties(n: nat, sep: char)
    ensures n > 0 ==> Join(seq(n, _ => ""), sep) == seq(n - 1, _ => sep)
  {
    if n > 1 {
      JoinEmpties(n - 1, sep);
      assert seq(n, _ => "")[1..] == seq(n - 1, _ => "");
      assert [sep] + seq(n - 2, _ => sep) == seq(n - 1, _ => sep);
    }
  }

  /** `split("\n")` loses nothing but trailing newlines: joining its lines with
      "\n" gives back a prefix of the input, and only newlines follow it. */
  lemma SplitLinesRejoin(s: string)
    ensures var t := Join(SplitLines(s), '\n');
      |t| <= |s| && t == s[..|t|] && forall k :: |t| <= k < |s| ==> s[k] == '\n'
  {
    if '\n' in s {
      var r := CutAll(s, '\n');
      var q := DropTrailingEmpty(r);
      var n := |r| - |q|;
      assert r == q + seq(n, _ => "");
      JoinCutAll(s, '\n');
      if |q| >= 1 {
        RejoinKept(s, q, n);
      } else {
        RejoinNone(s, n);
      }
    }
  }

  lemma RejoinKept(s: string, q: seq<string>, n: nat)
    requires |q| >= 1 && Join(q + seq(n, _ => ""), '\n') == s
    ensures var t := Join(q, '\n');
      |t| <= |s| && t == s[..|t|] && forall k :: |t| <= k < |s| ==> s[k] == '\n'
  {
    JoinAppendEmpty(q, n, '\n');
    var t := Join(q, '\n');
    assert s == t + seq(n, _ => '\n');
  }

  lemma RejoinNone(s: string, n: nat)
    requires n >= 1 && Join([] + seq(n, _ => ""), '\n') == s
    ensures forall k :: 0 <= k < |s| ==> s[k] == '\n'
  {
    JoinEmpties(n, '\n');
    assert [] + seq(n, _ => "") == seq(n, _ => "");
    assert s == seq(n - 1, _ => '\n');
  }

  // ---------------------------------------------------------------------
  // Integer.parseInt(s) with radix 10, and decimal rendering

  predicate IsDigit(c: char) { '0' <= c <= '9' }

  predicate AllDigits(s: string) { forall k :: 0 <= k < |s| ==> IsDigit(s[k]) }

  function DigitValue(c: char): nat requires IsDigit(c) { c as int - '0' as int }

  /** The value of a string of decimal digits, most significant first. */
  function DigitsValue(s: string): nat
    requires AllDigits(s)
  {
    if s == [] then 0 else DigitsValue(s[..|s| - 1]) * 10 + DigitValue(s[|s| - 1])
  }

  /** At least one ASCII decimal digit and nothing else. */
  predicate IsNumeral(s: string) { |s| >= 1 && AllDigits(s) }

  /** `Integer.parseInt(s)`: an optional sign then at least one ASCII digit,
      and the value must fit in an `int`; anything else is a
      NumberFormatException, here `None`. Java also accepts non-ASCII
      Unicode digits, which cannot arise from text decoded one character per
      byte. */
  function ParseInt(s: string): (r: Option<int>)
    ensures r.Some? ==> IsInt32(r.value)
    ensures r.Some? ==> |s| >= 1
    ensures r.Some? && s[0] == '-' ==> IsNumeral(s[1..]) && r.value == -(DigitsValue(s[1..]) as int)
    ensures r.Some? && s[0] == '+' ==> IsNumeral(s[1..]) && r.value == DigitsValue(s[1..])
    ensures r.Some? && s[0] != '-' && s[0] != '+' ==> IsNumeral(s) && r.value == DigitsValue(s)
    ensures IsNumeral(s) && IsInt32(DigitsValue(s)) ==> r == Some(DigitsValue(s))
    ensures |s| >= 1 && s[0] == '-' && IsNumeral(s[1..]) && IsInt32(-(DigitsValue(s[1..]) as int)) ==>
      r == Some(-(DigitsValue(s[1..]) as int))
  {
    if |s| == 0 then None
    else
      var negative := s[0] == '-';
      var body := if s[0] == '-' || s[0] == '+' then s[1..] else s;
      if |body| == 0 || !AllDigits(body) then None
      else
        var magnitude: int := DigitsValue(body);
        var v := if negative then -magnitude else magnitude;
        if IsInt32(v) then Some(v) else None
  }

  /** Python's "%d" (and Java's Integer.toString) for a non-negative number. */
  function DecimalString(n: nat): (r: string)
    ensures |r| >= 1 && AllDigits(r)
  {
    var d := ['0' + ((n % 10) as char)];
    if n < 10 then d else DecimalString(n / 10) + d
  }

  lemma {:induction false} DecimalRoundTrip(n: nat)
    ensures DigitsValue(DecimalString(n)) == n
  {
    if n >= 10 {
      DecimalRoundTrip(n / 10);
      var s := DecimalString(n);
      assert s[..|s| - 1] == DecimalString(n / 10);
    }
  }

  /** parseInt reads back what "%d" writes, for every int. */
  lemma ParseDecimal(v: int)
    requires IsInt32(v)
    ensures v >= 0 ==> ParseInt(DecimalString(v)) == Some(v)
    ensures v < 0 ==> ParseInt("-" + DecimalString(-v)) == Some(v)
  {
    if v >= 0 {
      DecimalRoundTrip(v);
    } else {
      DecimalRoundTrip(-v);
      assert ("-" + DecimalString(-v))[1..] == DecimalString(-v);
    }
  }

  // ---------------------------------------------------------------------
  // java.io.File(path).getParent() on a Unix file system

  /** Collapses every run of '/' to one. */
  function CollapseSlashes(p: string): (r: string)
    ensures |r| <= |p|
    decreases |p|
  {
    if |p| < 2 then p
    else if p[0] == '/' && p[1] == '/' then CollapseSlashes(p[1..])
    else [p[0]] + CollapseSlashes(p[1..])
  }

  /** File's normal form: no repeated '/', no trailing '/' except for "/". */
  function Normalize(p: string): string
  {
    var q := CollapseSlashes(p);
    if |q| > 1 && q[|q| - 1] == '/' then q[..|q| - 1] else q
  }

  /** Last position of `c` in `s`, or -1. */
  function LastIndexOf(s: string, c: char): (r: int)
    ensures -1 <= r < |s|
    ensures r >= 0 ==> s[r] == c
    ensures forall k :: r < k < |s| ==> s[k] != c
  {
    if |s| == 0 then -1
    else if s[|s| - 1] == c then |s| - 1
    else LastIndexOf(s[..|s| - 1], c)
  }

  /** `new File(p).getParent()`: everything before the last '/' of the
      normalised path, "/" for a child of the root, null when there is no '/'. */
  function GetParent(p: string): Option<string>
  {
    var q := Normalize(p);
    var prefix := if |q| > 0 && q[0] == '/' then 1 else 0;
    var index := LastIndexOf(q, '/');
    if index < prefix then
      if prefix > 0 && |q| > prefix then Some(q[..prefix]) else None
    else Some(q[..index])
  }

  /** String concatenation renders a null parent as "null". */
  function ParentText(p: string): string
  {
    match GetParent(p)
    case None => "null"
    case Some(d) => d
  }

  predicate NoDoubleSlash(p: string) {
    forall k :: 0 <= k < |p| - 1 ==> !(p[k] == '/' && p[k + 1] == '/')
  }

  lemma {:induction false} CollapseKeeps(p: string)
    requires NoDoubleSlash(p)
    ensures CollapseSlashes(p) == p
    decreases |p|
  {
    if |p| >= 2 {
      CollapseKeeps(p[1..]);
    }
  }

  /** The parent of "dir/name" is "dir", for a path already in normal form. */
  lemma ParentOfChild(dir: string, name: string)
    requires dir != "" && name != "" && '/' !in name
    requires NoDoubleSlash(dir + "/" + name)
    ensures GetParent(dir + "/" + name) == Some(dir)
  {
    var p := dir + "/" + name;
    CollapseKeeps(p);
    assert p[|p| - 1] == name[|name| - 1];
    assert Normalize(p) == p;
    assert p[|dir|] == '/';
    assert forall k :: |dir| < k < |p| ==> p[k] == name[k - |dir| - 1];
    assert LastIndexOf(p, '/') == |dir|;
    assert p[..|dir|] == dir;
  }
}
