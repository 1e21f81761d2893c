/** The pure parts of `graftM create`: reading the pipeline type and the
    alignment length from an HMM file's header lines, choosing a name for a
    new HMM file that does not clash with an existing one, and naming the
    reference package and the GraftM package. The external tools it runs
    and the files it moves are outside the model. */
module Create {
  import opened Wrappers
  import opened Strings

  /** `'aa'` or `'na'`. */
  datatype PipelineType = Aa | Na

  datatype CreateError =
    | UnfamiliarHmmType(alph: string)  // "Unfamiliar HMM type: ..."
    | MisreadHmm                       // "Programming Error: Misread HMM file"
    | MissingValue                     // `item[1]` on a line with one word
    | NoAlphabet                       // `ptype` never assigned
    | NoLength                         // `leng` never assigned
    | GpkgExists                       // "Detected gpkg with name ..."

  // ---------------------------------------------------------------------------
  // `pipeType`
  // ---------------------------------------------------------------------------

  /** The header lines the source looks at. */
  predicate Selected(line: string) {
    StartsWith(line, "ALPH") || StartsWith(line, "LENG")
  }

  /** A line starting with a non-space character has a first word. */
  lemma WordsOfSelected(line: string)
    requires Selected(line)
    ensures Words(line) != []
  {
    var pieces := SplitWhere(line, IsSpace);
    var rest := SplitWhere(line[1..], IsSpace);
    assert !IsSpace(line[0]) by { assert line[..4] in {"ALPH", "LENG"}; assert line[0] == line[..4][0]; }
    assert pieces == [[line[0]] + rest[0]] + rest[1..];
    assert pieces[0] != "";
  }

  /** The alphabet value as the source's test reads it: `item[1]=='DNA' or
      'RNA'` is always true, so anything but `amino` is nucleotide. */
  function AlphabetAsWritten(value: string): (r: Result<PipelineType, CreateError>)
    ensures r.Ok?
    ensures r.value == Aa <==> value == "amino"
  {
    if value == "amino" then Ok(Aa) else Ok(Na)
  }

  /** The alphabet value as intended: `amino`, `DNA` or `RNA`, and anything
      else is unfamiliar. */
  function Alphabet(value: string): (r: Result<PipelineType, CreateError>)
    ensures r == Ok(Aa) <==> value == "amino"
    ensures r == Ok(Na) <==> value == "DNA" || value == "RNA"
    ensures r.Err? ==> r == Err(UnfamiliarHmmType(value))
  {
    if value == "amino" then Ok(Aa)
    else if value == "DNA" || value == "RNA" then Ok(Na)
    else Err(UnfamiliarHmmType(value))
  }

  /** What the loop has set so far. */
  datatype Header = Header(ptype: Option<PipelineType>, leng: Option<string>)

  /** One header line: a selected line whose first word is `ALPH` sets the
      type, `LENG` sets the length, and any other first word is an error. */
  function HeaderLine(acc: Header, line: string, alph: string -> Result<PipelineType, CreateError>): Result<Header, CreateError> {
    if !Selected(line) then Ok(acc)
    else
      var item := Words(line);
      WordsOfSelected(line);
      if item[0] == "ALPH" then
        if |item| < 2 then Err(MissingValue)
        else match alph(item[1])
          case Err(e) => Err(e)
          case Ok(t) => Ok(acc.(ptype := Some(t)))
      else if item[0] == "LENG" then
        if |item| < 2 then Err(MissingValue) else Ok(acc.(leng := Some(item[1])))
      else Err(MisreadHmm)
  }

  function HeaderFrom(acc: Header, lines: seq<string>, alph: string -> Result<PipelineType, CreateError>): Result<Header, CreateError>
    decreases |lines|
  {
    if lines == [] then Ok(acc)
    else match HeaderLine(acc, lines[0], alph)
      case Err(e) => Err(e)
      case Ok(next) => HeaderFrom(next, lines[1..], alph)
  }

  /** The header read with a given reading of the alphabet, then both
      values must have been set. */
  function PipeTypeWith(lines: seq<string>, alph: string -> Result<PipelineType, CreateError>): Result<(PipelineType, string), CreateError> {
    match HeaderFrom(Header(None, None), lines, alph)
    case Err(e) => Err(e)
    case Ok(h) =>
      if h.ptype.None? then Err(NoAlphabet)
      else if h.leng.None? then Err(NoLength)
      else Ok((h.ptype.value, h.leng.value))
  }

  function PipeTypeAsWritten(lines: seq<string>): Result<(PipelineType, string), CreateError> {
    PipeTypeWith(lines, AlphabetAsWritten)
  }

  function PipeType(lines: seq<string>): Result<(PipelineType, string), CreateError> {
    PipeTypeWith(lines, Alphabet)
  }

  /** Reading one more line is applying it to what the earlier lines gave;
      so a later `ALPH` or `LENG` line overrides an earlier one. */
  lemma {:induction false} HeaderAppend(acc: Header, lines: seq<string>, line: string, alph: string -> Result<PipelineType, CreateError>)
    ensures HeaderFrom(acc, lines + [line], alph) ==
              match HeaderFrom(acc, lines, alph)
              case Err(e) => Err(e)
              case Ok(h) => HeaderLine(h, line, alph)
    decreases |lines|
  {
    if lines == [] {
      assert [line][1..] == [];
    } else {
      assert (lines + [line])[1..] == lines[1..] + [line];
      var step := HeaderLine(acc, lines[0], alph);
      if step.Ok? {
        HeaderAppend(step.value, lines[1..], line, alph);
      }
    }
  }

  /** A last `LENG` line decides the length and a last `ALPH` line the
      type, whatever came before. */
  lemma LastLineWins(lines: seq<string>, line: string, value: string, alph: string -> Result<PipelineType, CreateError>)
    requires HeaderFrom(Header(None, None), lines, alph).Ok?
    requires Selected(line) && |Words(line)| >= 2 && Words(line)[1] == value
    ensures Words(line)[0] == "LENG" ==>
              HeaderFrom(Header(None, None), lines + [line], alph) == Ok(HeaderFrom(Header(None, None), lines, alph).value.(leng := Some(value)))
    ensures Words(line)[0] == "ALPH" && alph(value).Ok? ==>
              HeaderFrom(Header(None, None), lines + [line], alph) == Ok(HeaderFrom(Header(None, None), lines, alph).value.(ptype := Some(alph(value).value)))
    ensures Words(line)[0] !in {"ALPH", "LENG"} ==> HeaderFrom(Header(None, None), lines + [line], alph) == Err(MisreadHmm)
  {
    HeaderAppend(Header(None, None), lines, line, alph);
  }

  /** Read as written, no header is ever of an unfamiliar type. */
  lemma {:induction false} AsWrittenNeverUnfamiliar(acc: Header, lines: seq<string>)
    ensures forall v :: HeaderFrom(acc, lines, AlphabetAsWritten) != Err(UnfamiliarHmmType(v))
    decreases |lines|
  {
    if lines != [] {
      var step := HeaderLine(acc, lines[0], AlphabetAsWritten);
      if step.Ok? {
        AsWrittenNeverUnfamiliar(step.value, lines[1..]);
      }
    }
  }

  /** The intended reading and the written one agree on every header whose
      alphabet values are `amino`, `DNA` or `RNA`; they part only where the
      written test lets an unknown alphabet through as nucleotide. */
  lemma {:induction false} AlphabetsAgree(acc: Header, lines: seq<string>)
    requires forall k :: 0 <= k < |lines| && Selected(lines[k]) && |Words(lines[k])| >= 2 && Words(lines[k])[0] == "ALPH" ==>
               Words(lines[k])[1] in {"amino", "DNA", "RNA"}
    ensures HeaderFrom(acc, lines, Alphabet) == HeaderFrom(acc, lines, AlphabetAsWritten)
    decreases |lines|
  {
    if lines != [] {
      assert forall k :: 0 <= k < |lines| - 1 ==> lines[1..][k] == lines[k + 1];
      var step := HeaderLine(acc, lines[0], Alphabet);
      if step.Ok? {
        AlphabetsAgree(step.value, lines[1..]);
      }
    }
  }

  /** The header `ALPH protein` shows the difference: read as written it is
      nucleotide; as intended it is unfamiliar. */
  lemma UnfamiliarAlphabetLetThrough()
    ensures HeaderLine(Header(None, None), "ALPH protein", AlphabetAsWritten) == Ok(Header(Some(Na), None))
    ensures HeaderLine(Header(None, None), "ALPH protein", Alphabet) == Err(UnfamiliarHmmType("protein"))
  {
    WordsAlphProtein();
  }

  lemma WordsAlphProtein()
    ensures Words("ALPH protein") == ["ALPH", "protein"]
  {
    var a, b := "ALPH", "protein";
    assert "ALPH protein" == a + [' '] + b;
    WordsOfTwo(a, b);
  }

  /** `pipeType` as the source runs it, a loop reassigning `ptype` and
      `leng`, with the alphabet test as intended. */
  method PipeTypeLoop(lines: seq<string>) returns (r: Result<(PipelineType, string), CreateError>)
    ensures r == PipeType(lines)
  {
    var ptype: Option<PipelineType> := None;
    var leng: Option<string> := None;
    for i := 0 to |lines|
      invariant HeaderFrom(Header(ptype, leng), lines[i..], Alphabet) == HeaderFrom(Header(None, None), lines, Alphabet)
    {
      assert lines[i..][1..] == lines[i + 1..];
      var line := lines[i];
      if Selected(line) {
        var item := Words(line);
        WordsOfSelected(line);
        if item[0] == "ALPH" {
          if |item| < 2 {
            return Err(MissingValue);
          }
          if item[1] == "amino" {
            ptype := Some(Aa);
          } else if item[1] == "DNA" || item[1] == "RNA" {
            ptype := Some(Na);
          } else {
            return Err(UnfamiliarHmmType(item[1]));
          }
        } else if item[0] == "LENG" {
          if |item| < 2 {
            return Err(MissingValue);
          }
          leng := Some(item[1]);
        } else {
          return Err(MisreadHmm);
        }
      }
    }
    assert lines[|lines|..] == [];
    if ptype.None? {
      return Err(NoAlphabet);
    }
    if leng.None? {
      return Err(NoLength);
    }
    r := Ok((ptype.value, leng.value));
  }

  // ---------------------------------------------------------------------------
  // `buildHmm`: a free name for the new HMM
  // ---------------------------------------------------------------------------

  /** The longest name in a finite set. */
  ghost function MaxLen(names: set<string>): (m: nat)
    ensures forall x <- names :: |x| <= m
    decreases names
  {
    if names == {} then 0
    else
      var x :| x in names;
      var m := MaxLen(names - {x});
      if |x| > m then |x| else m
  }

  /** What the loop has appended after `k` rounds: `_0_1…_(k-1)`. */
  function Suffixes(k: nat): (r: string)
    ensures |r| >= 2 * k
  {
    if k == 0 then "" else Suffixes(k - 1) + "_" + NatToString(k - 1)
  }

  /** The candidate after `k` rounds. */
  function Candidate(base: string, k: nat): string {
    base + Suffixes(k) + ".hmm"
  }

  /** A taken name is one more taken candidate, and no longer than the
      longest existing file name. */
  lemma Taken(base: string, k: nat, name: string, existing: set<string>)
    requires name == base + Suffixes(k) && name + ".hmm" in existing
    requires forall j :: 0 <= j < k ==> Candidate(base, j) in existing
    ensures forall j :: 0 <= j < k + 1 ==> Candidate(base, j) in existing
    ensures |name| + 4 <= MaxLen(existing)
  {
    assert Candidate(base, k) in existing;
  }

  /** One more round appends `_k`. */
  lemma SuffixStep(base: string, k: nat, name: string)
    requires name == base + Suffixes(k)
    ensures name + "_" + NatToString(k) == base + Suffixes(k + 1)
  {
    AppendAssoc(base, Suffixes(k), "_" + NatToString(k));
  }

  /** `buildHmm`'s naming loop, with the files that exist given as a set:
      the result is the first candidate that is not taken, so it never
      overwrites an existing file. */
  method BuildHmmName(base: string, existing: set<string>) returns (hmm: string)
    ensures hmm !in existing
    ensures exists k: nat :: hmm == Candidate(base, k) && forall j :: 0 <= j < k ==> Candidate(base, j) in existing
  {
    var name := base;
    var counter: nat := 0;
    if name + ".hmm" in existing {
      name, counter := SkipTaken(base, existing);
      hmm := name + ".hmm";
    } else {
      hmm := name + ".hmm";
    }
    assert hmm == Candidate(base, counter);
  }

  /** The `while` loop: append `_counter` until the name is free. */
  method SkipTaken(base: string, existing: set<string>) returns (name: string, counter: nat)
    ensures name + ".hmm" !in existing && name == base + Suffixes(counter)
    ensures forall j :: 0 <= j < counter ==> Candidate(base, j) in existing
  {
    name, counter := base, 0;
    while name + ".hmm" in existing
      invariant name == base + Suffixes(counter)
      invariant forall j :: 0 <= j < counter ==> Candidate(base, j) in existing
      decreases MaxLen(existing) - |name|
    {
      Taken(base, counter, name, existing);
      SuffixStep(base, counter, name);
      name, counter := name + "_" + NatToString(counter), counter + 1;
    }
  }

  // ---------------------------------------------------------------------------
  // Package names
  // ---------------------------------------------------------------------------

  /** The prefix when one is given, otherwise the base. */
  function Stem(base: string, prefix: Option<string>): string {
    if Given(prefix) then prefix.value else base
  }

  /** The reference package name in `callTaxitCreate`. */
  function RefpkgName(base: string, prefix: Option<string>): (r: string)
    ensures |r| >= 7 && r[|r| - 7..] == ".refpkg"
    ensures Given(prefix) ==> r[..|r| - 7] == prefix.value
    ensures !Given(prefix) ==> r[..|r| - 7] == base
  {
    Stem(base, prefix) + ".refpkg"
  }

  /** The GraftM package name in `compile`, which must not already be a
      directory. */
  function GpkgName(base: string, prefix: Option<string>, directories: set<string>): (r: Result<string, CreateError>)
    ensures r.Err? <==> Stem(base, prefix) + ".gpkg" in directories
    ensures r.Ok? ==> |r.value| >= 5 && r.value[|r.value| - 5..] == ".gpkg"
    ensures r.Ok? && Given(prefix) ==> r.value[..|r.value| - 5] == prefix.value
    ensures r.Ok? && !Given(prefix) ==> r.value[..|r.value| - 5] == base
  {
    var gpkg := Stem(base, prefix) + ".gpkg";
    if gpkg in directories then Err(GpkgExists) else Ok(gpkg)
  }

  /** The reference package and the GraftM package made from the same base
      and prefix carry the same stem. */
  lemma NamesShareStem(base: string, prefix: Option<string>, directories: set<string>)
    requires GpkgName(base, prefix, directories).Ok?
    ensures var refpkg := RefpkgName(base, prefix);
            var gpkg := GpkgName(base, prefix, directories).value;
            refpkg[..|refpkg| - 7] == gpkg[..|gpkg| - 5]
  {
  }
}
