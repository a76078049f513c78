/** The two pieces of `main` (flasher.py) that compute something: the
    `addr:file` flash-file arguments, collected into an insertion-ordered
    dictionary, and the default output base derived from the project label. */
module Cli {
  import opened Common
  import opened Text

  /** A Python `dict` from flash address to file path: its keys in insertion
      order and its entries. */
  datatype Dict = Dict(keys: seq<string>, entries: map<string, string>)

  const Empty: Dict := Dict([], map[])

  /** The keys are distinct and are exactly the keys of the entries. */
  predicate WellFormed(d: Dict) {
    (forall i, j :: 0 <= i < j < |d.keys| ==> d.keys[i] != d.keys[j])
    && (forall a :: a in d.entries ==> a in d.keys)
    && (forall a :: a in d.keys ==> a in d.entries)
  }

  /** `d[k] = v`: a new key goes to the end, an existing one keeps its place. */
  function Assign(d: Dict, k: string, v: string): Dict {
    Dict(if k in d.entries then d.keys else d.keys + [k], d.entries[k := v])
  }

  /** An assignment keeps the dictionary well formed, binds `k` to `v`,
      leaves every other key alone and never moves a key already present. */
  lemma AssignMeaning(d: Dict, k: string, v: string)
    requires WellFormed(d)
    ensures var e := Assign(d, k, v);
      WellFormed(e) && k in e.entries && e.entries[k] == v
      && (forall a :: a != k ==> (a in e.entries <==> a in d.entries))
      && (forall a :: a != k && a in d.entries ==> e.entries[a] == d.entries[a])
      && |d.keys| <= |e.keys| <= |d.keys| + 1 && e.keys[..|d.keys|] == d.keys
      && (|e.keys| == |d.keys| + 1 <==> k !in d.entries)
  {
    var e := Assign(d, k, v);
    if k !in d.entries {
      assert e.keys[..|d.keys|] == d.keys;
      assert k !in d.keys;
      forall a ensures a in e.entries <==> a in e.keys {
        assert a in e.keys <==> a in d.keys || a == k;
      }
    }
  }

  /** The well-formedness clause of `AssignMeaning` alone: the inductions
      over the argument list use it because the full meaning costs them too
      much solver effort. */
  lemma AssignWellFormed(d: Dict, k: string, v: string)
    requires WellFormed(d)
    ensures WellFormed(Assign(d, k, v))
  {
    var e := Assign(d, k, v);
    if k !in d.entries {
      assert k !in d.keys;
      forall a | a in e.keys ensures a in e.entries {
        assert a in d.keys || a == k;
      }
    }
  }

  /** The index of the first `:` in `s`, if any. */
  function FirstColon(s: string, from: nat): (r: Option<nat>)
    requires from <= |s|
    ensures r.Some? ==> from <= r.value < |s| && s[r.value] == ':'
    ensures r.Some? ==> forall k :: from <= k < r.value ==> s[k] != ':'
    ensures r.None? ==> forall k :: from <= k < |s| ==> s[k] != ':'
    decreases |s| - from
  {
    if from == |s| then None else if s[from] == ':' then Some(from) else FirstColon(s, from + 1)
  }

  function FormatError(spec: string): string {
    "Error: Invalid file format '" + spec + "'. Use addr:file format (e.g., 0x0:bootloader.bin)"
  }

  /** One `addr:file` argument: an error when it has no colon, otherwise
      `spec.split(':', 1)`, the address before the first colon and the path
      (which may hold further colons) after it. */
  function SplitSpec(spec: string): (r: Result<(string, string)>)
    ensures r.Err? <==> ':' !in spec
    ensures r.Err? ==> r.message == FormatError(spec)
    ensures r.Ok? ==> r.value.0 + ":" + r.value.1 == spec && ':' !in r.value.0
  {
    match FirstColon(spec, 0)
    case None => Err(FormatError(spec))
    case Some(i) =>
      assert spec == spec[..i] + ":" + spec[i + 1..];
      Ok((spec[..i], spec[i + 1..]))
  }

  /** Joining an address without colons to a path and splitting again gives
      both back. */
  lemma SplitJoin(addr: string, path: string)
    requires ':' !in addr
    ensures SplitSpec(addr + ":" + path) == Ok((addr, path))
  {
    var spec := addr + ":" + path;
    assert spec[|addr|] == ':';
    forall k | 0 <= k < |addr| ensures spec[k] != ':' {
      assert spec[k] == addr[k] && addr[k] in addr;
    }
    assert FirstColon(spec, 0) == Some(|addr|);
    assert spec[..|addr|] == addr;
    assert spec == (addr + ":") + path;
    assert spec[|addr + ":"|..] == path;
  }

  /** The address and the path of a spec that has a colon. */
  function Addr(spec: string): string
    requires ':' in spec
  {
    SplitSpec(spec).value.0
  }

  function PathOf(spec: string): string
    requires ':' in spec
  {
    SplitSpec(spec).value.1
  }

  /** The loop over the `addr:file` arguments, from dictionary `d` on: the
      first argument without a colon ends everything with its error. */
  function ParseFrom(d: Dict, specs: seq<string>): Result<Dict>
    decreases |specs|
  {
    if specs == [] then Ok(d)
    else match SplitSpec(specs[0])
      case Err(m) => Err(m)
      case Ok(p) => ParseFrom(Assign(d, p.0, p.1), specs[1..])
  }

  /** `flash_files[addr] = filepath` for each argument in order, stopping with
      the format error at the first argument that has no colon. */
  method ParseFlashFiles(specs: seq<string>) returns (r: Result<Dict>)
    ensures r == ParseFrom(Empty, specs)
  {
    var flashFiles := Empty;
    for i := 0 to |specs|
      invariant ParseFrom(flashFiles, specs[i..]) == ParseFrom(Empty, specs)
    {
      assert specs[i..][1..] == specs[i + 1..];
      if ':' !in specs[i] {
        return Err(FormatError(specs[i]));
      }
      var parts := SplitSpec(specs[i]);
      flashFiles := Assign(flashFiles, parts.value.0, parts.value.1);
    }
    assert specs[|specs|..] == [];
    return Ok(flashFiles);
  }

  /** Every argument has a colon. */
  predicate AllSplit(specs: seq<string>) {
    forall k :: 0 <= k < |specs| ==> ':' in specs[k]
  }

  /** The arguments are accepted exactly when every one has a colon. */
  lemma {:induction false} ParseAcceptsIff(d: Dict, specs: seq<string>)
    ensures ParseFrom(d, specs).Ok? <==> AllSplit(specs)
    decreases |specs|
  {
    if specs != [] && ':' in specs[0] {
      var p := SplitSpec(specs[0]).value;
      ParseAcceptsIff(Assign(d, p.0, p.1), specs[1..]);
      assert AllSplit(specs) <==> AllSplit(specs[1..]) by {
        assert forall k :: 1 <= k < |specs| ==> specs[k] == specs[1..][k - 1];
      }
    }
  }

  /** The error reported is the first argument without a colon. */
  lemma {:induction false} ParseFailsAt(d: Dict, specs: seq<string>, i: nat)
    requires i < |specs| && ':' !in specs[i] && AllSplit(specs[..i])
    ensures ParseFrom(d, specs) == Err(FormatError(specs[i]))
    decreases i
  {
    if i > 0 {
      assert specs[0] == specs[..i][0];
      var p := SplitSpec(specs[0]).value;
      assert specs[1..][..i - 1] == specs[..i][1..];
      ParseFailsAt(Assign(d, p.0, p.1), specs[1..], i - 1);
    }
  }

  /** No argument after index `i` names the same address as argument `i`. */
  predicate LastFor(specs: seq<string>, i: nat)
    requires i < |specs| && AllSplit(specs)
  {
    forall j :: i < j < |specs| ==> Addr(specs[j]) != Addr(specs[i])
  }

  /** No argument names address `a`. */
  predicate Unnamed(specs: seq<string>, a: string)
    requires AllSplit(specs)
  {
    forall k :: 0 <= k < |specs| ==> Addr(specs[k]) != a
  }

  /** One argument of the loop. */
  lemma ParseStep(d: Dict, specs: seq<string>)
    requires AllSplit(specs) && specs != []
    ensures AllSplit(specs[1..])
    ensures ParseFrom(d, specs) == ParseFrom(Assign(d, Addr(specs[0]), PathOf(specs[0])), specs[1..])
  {
    assert forall k :: 0 <= k < |specs| - 1 ==> specs[1..][k] == specs[k + 1];
  }

  /** When every argument has a colon the parse succeeds with a well-formed
      dictionary in which the earlier keys keep their places. */
  lemma {:induction false} ParseShape(d: Dict, specs: seq<string>)
    requires WellFormed(d) && AllSplit(specs)
    ensures ParseFrom(d, specs).Ok?
    ensures var e := ParseFrom(d, specs).value;
      WellFormed(e) && |d.keys| <= |e.keys| && e.keys[..|d.keys|] == d.keys
    decreases |specs|
  {
    if specs != [] {
      var d1 := Assign(d, Addr(specs[0]), PathOf(specs[0]));
      ParseStep(d, specs);
      AssignWellFormed(d, Addr(specs[0]), PathOf(specs[0]));
      ParseShape(d1, specs[1..]);
      var e := ParseFrom(d, specs).value;
      assert e.keys[..|d.keys|] == e.keys[..|d1.keys|][..|d.keys|];
    }
  }

  /** The keys after the parse are the earlier keys and the arguments'
      addresses. */
  lemma {:induction false} ParseKeys(d: Dict, specs: seq<string>, a: string)
    requires WellFormed(d) && AllSplit(specs)
    ensures ParseFrom(d, specs).Ok?
    ensures a in ParseFrom(d, specs).value.entries <==> a in d.entries || !Unnamed(specs, a)
    decreases |specs|
  {
    ParseShape(d, specs);
    if specs != [] {
      var d1 := Assign(d, Addr(specs[0]), PathOf(specs[0]));
      var rest := specs[1..];
      ParseStep(d, specs);
      AssignWellFormed(d, Addr(specs[0]), PathOf(specs[0]));
      ParseKeys(d1, rest, a);
      if !Unnamed(rest, a) {
        var k :| 0 <= k < |rest| && Addr(rest[k]) == a;
        assert specs[k + 1] == rest[k];
      }
      if !Unnamed(specs, a) {
        var k :| 0 <= k < |specs| && Addr(specs[k]) == a;
        if k > 0 {
          assert specs[k] == rest[k - 1];
        }
      }
    }
  }

  /** A key no argument names keeps its value. */
  lemma {:induction false} ParseKeeps(d: Dict, specs: seq<string>, a: string)
    requires WellFormed(d) && AllSplit(specs) && a in d.entries && Unnamed(specs, a)
    ensures ParseFrom(d, specs).Ok?
    ensures a in ParseFrom(d, specs).value.entries && ParseFrom(d, specs).value.entries[a] == d.entries[a]
    decreases |specs|
  {
    ParseShape(d, specs);
    if specs != [] {
      var d1 := Assign(d, Addr(specs[0]), PathOf(specs[0]));
      var rest := specs[1..];
      ParseStep(d, specs);
      AssignWellFormed(d, Addr(specs[0]), PathOf(specs[0]));
      assert Unnamed(rest, a) by {
        forall k | 0 <= k < |rest| ensures Addr(rest[k]) != a {
          assert rest[k] == specs[k + 1];
        }
      }
      ParseKeeps(d1, rest, a);
    }
  }

  /** The last argument naming an address gives that address its path. */
  lemma {:induction false} ParseLastWins(d: Dict, specs: seq<string>, i: nat)
    requires WellFormed(d) && AllSplit(specs) && i < |specs| && LastFor(specs, i)
    ensures ParseFrom(d, specs).Ok?
    ensures Addr(specs[i]) in ParseFrom(d, specs).value.entries
    ensures ParseFrom(d, specs).value.entries[Addr(specs[i])] == PathOf(specs[i])
    decreases |specs|
  {
    ParseShape(d, specs);
    var d1 := Assign(d, Addr(specs[0]), PathOf(specs[0]));
    var rest := specs[1..];
    ParseStep(d, specs);
    AssignWellFormed(d, Addr(specs[0]), PathOf(specs[0]));
    if i == 0 {
      assert Unnamed(rest, Addr(specs[0])) by {
        forall k | 0 <= k < |rest| ensures Addr(rest[k]) != Addr(specs[0]) {
          assert rest[k] == specs[k + 1];
        }
      }
      ParseKeeps(d1, rest, Addr(specs[0]));
    } else {
      assert rest[i - 1] == specs[i];
      assert LastFor(rest, i - 1) by {
        forall j | i - 1 < j < |rest| ensures Addr(rest[j]) != Addr(rest[i - 1]) {
          assert rest[j] == specs[j + 1];
        }
      }
      ParseLastWins(d1, rest, i - 1);
    }
  }

  /** `[^\w\-]`'s complement: the characters a cleaned label may hold. */
  predicate LabelChar(c: char) {
    IsWordChar(c) || c == '-'
  }

  /** `re.sub(r'[^\w\-]', '_', label)` */
  function CleanLabel(s: string): (r: string)
    ensures |r| == |s|
  {
    if s == [] then [] else [if LabelChar(s[0]) then s[0] else '_'] + CleanLabel(s[1..])
  }

  /** Cleaning keeps the label characters, turns every other character into
      `_`, and so leaves only label characters; a clean label is unchanged. */
  lemma {:induction false} CleanLabelMeaning(s: string)
    ensures forall k :: 0 <= k < |s| ==> CleanLabel(s)[k] == (if LabelChar(s[k]) then s[k] else '_')
    ensures forall k :: 0 <= k < |s| ==> LabelChar(CleanLabel(s)[k])
    ensures (forall k :: 0 <= k < |s| ==> LabelChar(s[k])) ==> CleanLabel(s) == s
  {
    if s != [] {
      CleanLabelMeaning(s[1..]);
      var r := CleanLabel(s);
      forall k | 0 < k < |s| ensures r[k] == (if LabelChar(s[k]) then s[k] else '_') {
        assert r[k] == CleanLabel(s[1..])[k - 1] && s[k] == s[1..][k - 1];
      }
    }
  }

  /** Cleaning twice is cleaning once. */
  lemma CleanLabelIdempotent(s: string)
    ensures CleanLabel(CleanLabel(s)) == CleanLabel(s)
  {
    CleanLabelMeaning(s);
    CleanLabelMeaning(CleanLabel(s));
  }

  /** The output base `main` passes on: the `--output-base` argument when
      given; otherwise, when a project label (or else the binary directory's
      name) is known and is not `.`, the cleaned label with
      `_flash_results`; otherwise nothing. */
  function DefaultOutputBase(outputBase: Option<string>, projectLabel: Option<string>, binDirName: Option<string>)
    : Option<string>
  {
    if Truthy(outputBase) then outputBase
    else
      var baseName := if Truthy(projectLabel) then projectLabel else if Truthy(binDirName) then binDirName else None;
      if Truthy(baseName) && baseName.value != "." then Some(CleanLabel(baseName.value) + "_flash_results")
      else outputBase
  }

  /** A given output base is kept.  Otherwise the project label, or failing
      that the directory name, when it is non-empty and not `.`, gives the
      base: that name cleaned, of the same length and holding only label
      characters, followed by `_flash_results`.  With no usable name the
      (empty or absent) argument stands. */
  lemma OutputBaseChoice(outputBase: Option<string>, projectLabel: Option<string>, binDirName: Option<string>)
    ensures Truthy(outputBase) ==> DefaultOutputBase(outputBase, projectLabel, binDirName) == outputBase
    ensures var r := DefaultOutputBase(outputBase, projectLabel, binDirName);
      var name := if Truthy(projectLabel) then TextOf(projectLabel) else TextOf(binDirName);
      !Truthy(outputBase) && (Truthy(projectLabel) || Truthy(binDirName)) && name != "." ==>
        r == Some(CleanLabel(name) + "_flash_results")
        && |r.value| == |name| + |"_flash_results"|
        && r.value[|name|..] == "_flash_results"
        && (forall k :: 0 <= k < |name| ==> LabelChar(r.value[k]))
        && ((forall k :: 0 <= k < |name| ==> LabelChar(name[k])) ==> r.value == name + "_flash_results")
    ensures var name := if Truthy(projectLabel) then TextOf(projectLabel) else TextOf(binDirName);
      !Truthy(outputBase) && (!(Truthy(projectLabel) || Truthy(binDirName)) || name == ".")
      ==> DefaultOutputBase(outputBase, projectLabel, binDirName) == outputBase
  {
    if !Truthy(outputBase) {
      if Truthy(projectLabel) {
        CleanLabelMeaning(projectLabel.value);
      } else if Truthy(binDirName) {
        CleanLabelMeaning(binDirName.value);
      }
    }
  }
}
