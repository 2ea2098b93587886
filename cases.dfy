/** Whole runs of the filename decorator on small cell lists, worked out in
    the model. The runs are stated for any tables that hold the entries the
    names use, and `BbpRuns` instantiates them with the Blue Brain Project tables. */
module CurationCases {
  import opened PyText
  import opened CellTables
  import opened Curation

  /** `L5_TTPC1_cADpyr232_2`: a thick-tufted layer 5 pyramidal cell whose
      token starts with the continuous adapting code. */
  const TtpcName := "L5" + "_" + "TTPC1" + "_" + "cADpyr232" + "_" + "2"

  /** `L23_PC_pyr232_1`: a layer 2/3 pyramidal cell whose token holds no e-type code. */
  const PcName := "L23" + "_" + "PC" + "_" + "pyr232" + "_" + "1"

  const TtpcParsed := Parsed(TtpcName, Ok(Fields("L5", "TTPC1", "cADpyr232", "2")))

  const PcParsed := Parsed(PcName, Ok(Fields("L23", "PC", "pyr232", "1")))

  const TtpcLine := DecoratedLine(TtpcName, "Layer 5",
    "[e] Thick-tufted Pyramidal c. (late bifurcating apical tuft)", "Continuous Adapting")

  const PcLine := DecoratedLine(PcName, "Layer 2/3", "[e] Pyramidal c.", "Continuous Adapting")

  /** Tables that hold the e-type table and the layer and m-type entries of the two names. */
  ghost predicate Covers(t: Tables) {
    && t.eTypes == ETypes
    && "L5" in t.layers && t.layers["L5"] == "Layer 5"
    && "L23" in t.layers && t.layers["L23"] == "Layer 2/3"
    && "TTPC1" in t.mTypes
    && t.mTypes["TTPC1"] == "[e] Thick-tufted Pyramidal c. (late bifurcating apical tuft)"
    && "PC" in t.mTypes && t.mTypes["PC"] == "[e] Pyramidal c."
  }

  lemma BbpCovers()
    ensures Covers(Bbp)
  {
  }

  /** With the Blue Brain Project m-types, a name whose m-type is known has
      more than four parts exactly when that m-type is one of the two tufted pyramidal
      cells whose codes hold an underscore. */
  lemma MTypeParts(name: string)
    requires SplitName(name).Ok? && SplitName(name).value.mType in Bbp.mTypes
    ensures |Split(name, '_')| > 4
        <==> SplitName(name).value.mType == "TPC_L4" || SplitName(name).value.mType == "TPC_L1"
  {
    UnderscoreMTypes();
  }

  /** The newline is stripped and the name splits into its four parts. */
  lemma ParseTtpc()
    ensures Parse(TtpcName + "\n") == TtpcParsed
  {
    StripNewline(TtpcName);
    FourPartName("L5", "TTPC1", "cADpyr232", "2");
    SplitOfFree("2", '.');
  }

  lemma ParsePc()
    ensures Parse(PcName + "\n") == PcParsed
  {
    StripNewline(PcName);
    FourPartName("L23", "PC", "pyr232", "1");
    SplitOfFree("1", '.');
  }

  /** A blank line strips to the empty name, which has a single part. */
  lemma ParseBlank()
    ensures Parse("\n") == Parsed("", Err(TooFewParts(1)))
  {
    assert Strip("\n") == "";
  }

  /** `cADpyr232` matches `cAD`, the sixth code; the five before it do not occur. */
  lemma SearchTtpcToken()
    ensures FirstMatch(ETypes, "cADpyr232") == Some(5)
  {
    var token := "cADpyr232";
    assert OccursAt("cAD", token, 0);
    MissingChar("cAC", token, 'C');
    MissingChar("bAC", token, 'b');
    MissingChar("cNAC", token, 'N');
    MissingChar("bNAC", token, 'N');
    MissingChar("dNAC", token, 'N');
    SearchResultUnique(ETypes, token, Some(5));
  }

  /** `pyr232` has none of the letters `A`, `I`, `S`, one of which every code holds. */
  lemma SearchPcToken()
    ensures FirstMatch(ETypes, "pyr232") == None
  {
    var token := "pyr232";
    forall j | 0 <= j < |ETypes|
      ensures !IsSubstring(ETypes[j].0, token)
    {
      MissingChar(ETypes[j].0, token, if j < 6 then 'A' else if j < 8 then 'I' else 'S');
    }
    SearchResultUnique(ETypes, token, None);
  }

  lemma CadEntry()
    ensures ETypes[5] == ("cAD", "Continuous Adapting")
  {
  }

  /** The thick-tufted cell decodes with its own code, whatever `e_type1` held. */
  lemma DecodeTtpc(t: Tables, eType1: Option<string>)
    requires Covers(t) && ValidCode(t, eType1)
    ensures DecodeName(t, TtpcParsed, eType1) == Ok((TtpcLine, Some("cAD")))
  {
    SearchTtpcToken();
    ETypeKeysDistinct();
    CadEntry();
    DecodeFound(t, TtpcParsed, eType1, 5);
  }

  /** The pyramidal cell reuses the code an earlier name left in `e_type1`. */
  lemma DecodePcAfterTtpc(t: Tables)
    requires Covers(t)
    ensures ValidCode(t, Some("cAD"))
    ensures DecodeName(t, PcParsed, Some("cAD")) == Ok((PcLine, Some("cAD")))
  {
    SearchPcToken();
    ETypeKeysDistinct();
    CadEntry();
    DecodeReused(t, PcParsed, 5);
  }

  /** The pyramidal cell cannot be decoded first: `e_type1` was never bound. */
  lemma DecodePcFirst(t: Tables)
    requires Covers(t)
    ensures DecodeName(t, PcParsed, None) == Err(UnboundEType)
  {
    SearchPcToken();
  }

  /** A one-name list: one decorated line. */
  lemma RunTtpc(t: Tables)
    requires Covers(t)
    ensures Decorate(t, ParseAll([TtpcName + "\n"]), None) == Outcome([TtpcLine], None)
  {
    ParseTtpc();
    var ps := ParseAll([TtpcName + "\n"]);
    DecodeTtpc(t, None);
    DecorateFirst(t, ps, None);
    assert ps[1..] == [];
  }

  /** The second name has no e-type code of its own and is written with the
      label of the code the first name left in `e_type1`. */
  lemma RunStaleCode(t: Tables)
    requires Covers(t)
    ensures Decorate(t, ParseAll([TtpcName + "\n", PcName + "\n"]), None) == Outcome([TtpcLine, PcLine], None)
  {
    ParseAllPair(TtpcName + "\n", PcName + "\n");
    ParseTtpc();
    ParsePc();
    DecorateStale(t);
  }

  lemma DecorateStale(t: Tables)
    requires Covers(t)
    ensures Decorate(t, [TtpcParsed, PcParsed], None) == Outcome([TtpcLine, PcLine], None)
  {
    DecodeTtpc(t, None);
    DecodePcAfterTtpc(t);
    DecorateTwo(t, TtpcParsed, PcParsed, None, TtpcLine, Some("cAD"));
  }

  /** Two names that both decode are both written, and the run ends cleanly. */
  lemma DecorateTwo(t: Tables, first: Parsed, second: Parsed, eType1: Option<string>, line: string, next: Option<string>)
    requires ValidCode(t, eType1) && DecodeName(t, first, eType1) == Ok((line, next))
    requires ValidCode(t, next) && DecodeName(t, second, next).Ok?
    ensures Decorate(t, [first, second], eType1) == Outcome([line, DecodeName(t, second, next).value.0], None)
  {
    var ps := [first, second];
    DecorateFirst(t, ps, eType1);
    assert ps[1..] == [second];
    DecorateFirst(t, [second], next);
    assert [second][1..] == [];
  }

  /** In the other order the run ends at once: nothing is written. */
  lemma RunUnboundCode(t: Tables)
    requires Covers(t)
    ensures Decorate(t, ParseAll([PcName + "\n", TtpcName + "\n"]), None) == Outcome([], Some(UnboundEType))
  {
    ParseAllPair(PcName + "\n", TtpcName + "\n");
    ParsePc();
    DecodePcFirst(t);
    DecorateFirstFails(t, [PcParsed, Parse(TtpcName + "\n")], None);
  }

  /** A blank line ends the run with an `IndexError`, even before good names. */
  lemma RunBlankLine(t: Tables)
    requires Covers(t)
    ensures Decorate(t, ParseAll(["\n", TtpcName + "\n"]), None) == Outcome([], Some(TooFewParts(1)))
  {
    ParseAllPair("\n", TtpcName + "\n");
    ParseBlank();
    DecorateFirstFails(t, [Parse("\n"), Parse(TtpcName + "\n")], None);
  }

  /** The four runs with the Blue Brain Project tables. */
  lemma BbpRuns()
    ensures Decorate(Bbp, ParseAll([TtpcName + "\n"]), None) == Outcome([TtpcLine], None)
    ensures Decorate(Bbp, ParseAll([TtpcName + "\n", PcName + "\n"]), None) == Outcome([TtpcLine, PcLine], None)
    ensures Decorate(Bbp, ParseAll([PcName + "\n", TtpcName + "\n"]), None) == Outcome([], Some(UnboundEType))
    ensures Decorate(Bbp, ParseAll(["\n", TtpcName + "\n"]), None) == Outcome([], Some(TooFewParts(1)))
  {
    BbpCovers();
    RunTtpc(Bbp);
    RunStaleCode(Bbp);
    RunUnboundCode(Bbp);
    RunBlankLine(Bbp);
  }
}
