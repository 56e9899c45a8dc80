/** File names as the restorer treats them: the extension of a name is its
    last dot-separated segment, lower-cased; a shapefile set needs a `.shp`
    and a `.dbf`; outputs are named after the geometry file's name with its
    first `.shp` removed. */
module FileNames {

  datatype Option<T> = None | Some(value: T)

  const ShpExt: string := "shp"
  const DbfExt: string := "dbf"
  const ShxExt: string := "shx"
  const PrjExt: string := "prj"
  const RestoreSuffix: string := "_restore."

  /** The extensions a shapefile set must include, `shp` first. */
  const Required: seq<string> := [ShpExt, DbfExt]

  /** `allExtensions`: the required `shp` and `dbf`, then the optional
      `shx` and `prj`. */
  predicate Recognised(ext: string) {
    ext == ShpExt || ext == DbfExt || ext == ShxExt || ext == PrjExt
  }

  // ---------------------------------------------------------------------
  // Extensions: `name.split('.').pop().toLowerCase()`

  predicate DotFree(s: string) {
    forall i | 0 <= i < |s| :: s[i] != '.'
  }

  predicate LowerCase(s: string) {
    forall i | 0 <= i < |s| :: !('A' <= s[i] <= 'Z')
  }

  /** Where the segment ending at `j` starts: one past the last '.' before
      `j`, or 0 when there is none. */
  function SegmentStart(s: string, j: nat): (k: nat)
    requires j <= |s|
    ensures k <= j
    ensures k == 0 || s[k - 1] == '.'
    ensures forall i | k <= i < j :: s[i] != '.'
  {
    if j == 0 then 0
    else if s[j - 1] == '.' then j
    else SegmentStart(s, j - 1)
  }

  /** A dot at k - 1 followed by no dot before j is where the segment
      ending at j starts. */
  lemma {:induction false} SegmentStartAt(s: string, j: nat, k: nat)
    requires 0 < k <= j <= |s| && s[k - 1] == '.'
    requires forall i | k <= i < j :: s[i] != '.'
    ensures SegmentStart(s, j) == k
    decreases j
  {
    if j > k {
      SegmentStartAt(s, j - 1, k);
    }
  }

  /** The text after the last '.', or the whole name when it has none. */
  function LastSegment(s: string): (r: string)
    ensures DotFree(r)
    ensures |r| <= |s|
    ensures forall i | 0 <= i < |r| :: r[i] == s[|s| - |r| + i]
    ensures |r| < |s| ==> s[|s| - |r| - 1] == '.'
  {
    s[SegmentStart(s, |s|)..]
  }

  /** Lower-casing, for the ASCII letters. */
  function LowerChar(c: char): (r: char)
    ensures !('A' <= r <= 'Z')
    ensures !('A' <= c <= 'Z') ==> r == c
    ensures r == '.' <==> c == '.'
  {
    if 'A' <= c <= 'Z' then (c as int - 'A' as int + 'a' as int) as char else c
  }

  function ToLower(s: string): (r: string)
    ensures |r| == |s| && LowerCase(r)
    ensures forall i | 0 <= i < |s| :: r[i] == LowerChar(s[i])
  {
    seq(|s|, i requires 0 <= i < |s| => LowerChar(s[i]))
  }

  /** ToLower leaves a string without upper-case letters unchanged. */
  lemma {:induction false} ToLowerOfLower(s: string)
    requires LowerCase(s)
    ensures ToLower(s) == s
  {
    var r := ToLower(s);
    assert forall i | 0 <= i < |s| :: r[i] == s[i];
  }

  /** The extension of a name: its longest dot-free suffix, lower-cased
      (ExtensionIsLoweredSuffix). */
  function Extension(name: string): (r: string)
    ensures DotFree(r) && LowerCase(r)
    ensures |r| <= |name|
  {
    var last := LastSegment(name);
    ToLowerDotFree(last);
    ToLower(last)
  }

  /** The extension is the lower-cased suffix of the name of its own
      length, and that suffix is the whole name or follows a '.'. With
      DotFree, this makes it the longest dot-free suffix. */
  lemma {:induction false} ExtensionIsLoweredSuffix(name: string)
    ensures var r := Extension(name);
      && r == ToLower(name[|name| - |r|..])
      && (|r| < |name| ==> name[|name| - |r| - 1] == '.')
  {
    var last := LastSegment(name);
    assert last == name[|name| - |last|..];
  }

  /** Lower-casing introduces no '.'. */
  lemma {:induction false} ToLowerDotFree(s: string)
    requires DotFree(s)
    ensures DotFree(ToLower(s))
  {
    var r := ToLower(s);
    forall i | 0 <= i < |r| ensures r[i] != '.' {
      assert r[i] == LowerChar(s[i]) && s[i] != '.';
    }
  }

  /** A name that ends in a '.' followed by a dot-free `ext` has the
      lower-cased `ext` as its extension. */
  lemma {:induction false} ExtensionAfterDot(prefix: string, ext: string)
    requires |prefix| > 0 && prefix[|prefix| - 1] == '.'
    requires DotFree(ext)
    ensures Extension(prefix + ext) == ToLower(ext)
  {
    var s := prefix + ext;
    forall i | |prefix| <= i < |s|
      ensures s[i] != '.'
    {
      assert s[i] == ext[i - |prefix|];
    }
    assert s[|prefix| - 1] == '.';
    SegmentStartAt(s, |s|, |prefix|);
    assert LastSegment(s) == ext by {
      assert s[|prefix|..] == ext;
    }
  }

  /** `stem.ext` with a dot-free `ext` has the lower-cased `ext` as its
      extension, so "A.SHP" is recognised as "shp". */
  lemma {:induction false} ExtensionOfSuffix(stem: string, ext: string)
    requires DotFree(ext)
    ensures Extension(stem + "." + ext) == ToLower(ext)
  {
    ExtensionAfterDot(stem + ".", ext);
  }

  /** A name without a '.' is its own extension, lower-cased. */
  lemma {:induction false} ExtensionOfDotFree(name: string)
    requires DotFree(name)
    ensures Extension(name) == ToLower(name)
  {
    SegmentStartOfDotFree(name, |name|);
    assert name[0..] == name;
  }

  /** In a dot-free string every segment starts at 0. */
  lemma {:induction false} SegmentStartOfDotFree(s: string, j: nat)
    requires j <= |s| && DotFree(s)
    ensures SegmentStart(s, j) == 0
    decreases j
  {
    if j > 0 {
      SegmentStartOfDotFree(s, j - 1);
    }
  }

  // ---------------------------------------------------------------------
  // ShapefileUtils.validateShapefileSet

  /** Some input has extension `ext`. */
  predicate Supplied(names: seq<string>, ext: string) {
    |names| > 0 && (Extension(names[0]) == ext || Supplied(names[1..], ext))
  }

  /** The concatenation of `f` over `xs`, in order. */
  function FlatMap<T, U>(f: T -> seq<U>, xs: seq<T>): seq<U> {
    if |xs| == 0 then [] else f(xs[0]) + FlatMap(f, xs[1..])
  }

  /** FlatMap distributes over concatenation. */
  lemma {:induction false} FlatMapAppend<T, U>(f: T -> seq<U>, a: seq<T>, b: seq<T>)
    ensures FlatMap(f, a + b) == FlatMap(f, a) + FlatMap(f, b)
    decreases |a|
  {
    if |a| == 0 {
      assert a + b == b;
    } else {
      assert (a + b)[0] == a[0];
      assert (a + b)[1..] == a[1..] + b;
      FlatMapAppend(f, a[1..], b);
    }
  }

  /** What one input adds to `present`: its extension when recognised. */
  function Contribution(name: string): (c: seq<string>)
    ensures |c| <= 1
    ensures c == [] || c == [Extension(name)]
  {
    var ext := Extension(name);
    if Recognised(ext) then [ext] else []
  }

  /** The recognised extensions of `names`, in input order. */
  function Present(names: seq<string>): seq<string> {
    FlatMap(Contribution, names)
  }

  /** An extension is present exactly when it is recognised and some input
      has it. */
  lemma {:induction false} PresentMembers(names: seq<string>, e: string)
    ensures e in Present(names) <==> Recognised(e) && Supplied(names, e)
    decreases |names|
  {
    if |names| > 0 {
      PresentMembers(names[1..], e);
    }
  }

  /** `present` distributes over concatenation of the inputs, so it keeps
      the recognised extensions in input order. */
  lemma {:induction false} PresentAppend(a: seq<string>, b: seq<string>)
    ensures Present(a + b) == Present(a) + Present(b)
  {
    FlatMapAppend(Contribution, a, b);
  }

  /** A single input contributes its extension exactly when it is recognised. */
  lemma {:induction false} PresentSingle(name: string)
    ensures Present([name]) == if Recognised(Extension(name)) then [Extension(name)] else []
  {
    var xs := [name];
    assert xs[1..] == [];
    assert FlatMap(Contribution, xs) == Contribution(xs[0]) + FlatMap(Contribution, xs[1..]);
    assert Contribution(name) + [] == Contribution(name);
  }

  datatype ValidationResult = ValidationResult(isValid: bool, missing: seq<string>, present: seq<string>)

  /** The required extensions not found, `shp` first. */
  function Missing(shpFound: bool, dbfFound: bool): seq<string> {
    (if shpFound then [] else [ShpExt]) + (if dbfFound then [] else [DbfExt])
  }

  lemma {:induction false} MissingMembers(shpFound: bool, dbfFound: bool)
    ensures forall e :: e in Missing(shpFound, dbfFound) <==>
      (e == ShpExt && !shpFound) || (e == DbfExt && !dbfFound)
    ensures |Missing(shpFound, dbfFound)| == 2 ==> Missing(shpFound, dbfFound) == Required
    ensures Missing(shpFound, dbfFound) == [] <==> shpFound && dbfFound
  {
  }

  /** The set is valid exactly when some input has extension `shp` and some
      has `dbf`; `missing` lists the absent ones of the two, `shp` first. */
  function ValidateShapefileSet(names: seq<string>): (v: ValidationResult)
    ensures v.present == Present(names)
    ensures v.isValid <==> Supplied(names, ShpExt) && Supplied(names, DbfExt)
    ensures v.isValid <==> v.missing == []
    ensures forall e :: e in v.missing <==> e in Required && !Supplied(names, e)
    ensures |v.missing| == 2 ==> v.missing == Required
    ensures |v.missing| <= 2
  {
    var present := Present(names);
    PresentMembers(names, ShpExt);
    PresentMembers(names, DbfExt);
    var shpFound, dbfFound := ShpExt in present, DbfExt in present;
    MissingMembers(shpFound, dbfFound);
    ValidationResult(shpFound && dbfFound, Missing(shpFound, dbfFound), present)
  }

  // ---------------------------------------------------------------------
  // Output names: `name.replace('.shp', '')` then `${base}_restore.${ext}`

  predicate OccursAt(s: string, pat: string, i: nat) {
    i + |pat| <= |s| && s[i..i + |pat|] == pat
  }

  /** The first position at or after `from` where `pat` occurs. */
  function IndexOf(s: string, pat: string, from: nat): (r: Option<nat>)
    ensures r.Some? ==> from <= r.value && OccursAt(s, pat, r.value)
    ensures forall j | from <= j && (r.None? || j < r.value) :: !OccursAt(s, pat, j)
    decreases |s| - from
  {
    if from + |pat| > |s| then None
    else if s[from..from + |pat|] == pat then Some(from)
    else IndexOf(s, pat, from + 1)
  }

  /** String.prototype.replace with a string pattern: the first occurrence
      only, and the string unchanged when there is none. */
  function ReplaceFirst(s: string, pat: string, rep: string): (r: string)
    ensures (forall j: nat :: !OccursAt(s, pat, j)) ==> r == s
    ensures forall i: nat | OccursAt(s, pat, i) && (forall j: nat | j < i :: !OccursAt(s, pat, j)) ::
      r == s[..i] + rep + s[i + |pat|..]
  {
    match IndexOf(s, pat, 0)
    case None => s
    case Some(i) => s[..i] + rep + s[i + |pat|..]
  }

  function BaseName(shpName: string): string {
    ReplaceFirst(shpName, ".shp", "")
  }

  function OutputName(base: string, ext: string): string {
    base + RestoreSuffix + ext
  }

  /** ".shp" cannot overlap itself, so in `stem + ".shp"` its first
      occurrence is the appended one whenever the stem has none. */
  lemma {:induction false} BaseNameOfShpName(stem: string)
    requires forall j | 0 <= j :: !OccursAt(stem, ".shp", j)
    ensures BaseName(stem + ".shp") == stem
  {
    var s := stem + ".shp";
    forall j | 0 <= j < |stem|
      ensures !OccursAt(s, ".shp", j)
    {
      if j + 4 <= |stem| {
        assert !OccursAt(stem, ".shp", j);
        assert s[j..j + 4] == stem[j..j + 4];
      } else if j + 4 <= |s| {
        var k := |stem| - j;
        assert 1 <= k < 4 && ".shp"[1] != '.' && ".shp"[2] != '.' && ".shp"[3] != '.';
        assert s[j..j + 4][k] == s[|stem|] == '.' != ".shp"[k];
      }
    }
    assert OccursAt(s, ".shp", |stem|) by {
      assert s[|stem|..|stem| + 4] == ".shp";
    }
    var found := IndexOf(s, ".shp", 0);
    assert found == Some(|stem|);
    assert s[..|stem|] == stem;
  }

  /** An output name carries the requested extension. */
  lemma {:induction false} OutputNameExtension(base: string, ext: string)
    requires DotFree(ext) && LowerCase(ext)
    ensures Extension(OutputName(base, ext)) == ext
  {
    var prefix := base + RestoreSuffix;
    assert prefix[|prefix| - 1] == RestoreSuffix[|RestoreSuffix| - 1] == '.';
    ExtensionAfterDot(prefix, ext);
    ToLowerOfLower(ext);
  }

  /** Output names for different extensions of one length are different. */
  lemma {:induction false} OutputNamesDiffer(base: string, e1: string, e2: string)
    requires |e1| == |e2| && e1 != e2
    ensures OutputName(base, e1) != OutputName(base, e2)
  {
    var k := |base| + |RestoreSuffix|;
    assert OutputName(base, e1)[k..] == e1 && OutputName(base, e2)[k..] == e2;
  }
}
