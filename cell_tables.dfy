/** The three fixed lookup tables that explain the parts of a Blue Brain
    Project cell name: cortical layer, morphological type (m-type) and
    electrical type (e-type). */
module CellTables {

  /** The three dictionaries the decoder consults. The e-type dictionary is kept
      as its list of entries, since the order of its codes decides the search. */
  datatype Tables = Tables(
    layers: map<string, string>,
    mTypes: map<string, string>,
    eTypes: seq<(string, string)>)

  /** Layer codes and their labels. */
  const Layers: map<string, string> := map[
    "L1" := "Layer 1",
    "L23" := "Layer 2/3",
    "L4" := "Layer 4",
    "L5" := "Layer 5",
    "L6" := "Layer 6"
  ]

  /** M-type codes and their labels; `[i]` marks interneurons, `[e]` excitatory cells. */
  const MTypes: map<string, string> := map[
    "DAC" := "[i] Descending Axon c.",
    "NGC-DA" := "[i] Neurogliaform c. with dense axonal arborization",
    "NGC-SA" := "[i] Neurogliaform c. with slender axonal arborization",
    "HAC" := "[i] Horizontal Axon c.",
    "LAC" := "[i] Large Axon c.",
    "DLAC" := "[i] Dense Local Arborizing c.",
    "SAC" := "[i] Small Axon c.",
    "SLAC" := "[i] Sparse Local Arborizing c.",
    "MC" := "[i] Martinotti c.",
    "BTC" := "[i] Bitufted c.",
    "DBC" := "[i] Double Bouquet c.",
    "BP" := "[i] Bipolar c.",
    "NGC" := "[i] Neurogliaform c.",
    "LBC" := "[i] Large basket c.",
    "NBC" := "[i] Nest basket c.",
    "SBC" := "[i] Small basket c.",
    "ChC" := "[i] Chandelier c.",
    "PC" := "[e] Pyramidal c.",
    "SP" := "[e] Star Pyramidal c.",
    "SS" := "[e] Spiny Stellate c.",
    "TTPC1" := "[e] Thick-tufted Pyramidal c. (late bifurcating apical tuft)",
    "TTPC2" := "[e] Thick-tufted Pyramidal c. (early bifurcating apical tuft)",
    "UTPC" := "[e] Untufted pyramidal c.",
    "STPC" := "[e] Slender tufted pyramidal c.",
    "TPC_L4" := "[e] Tufted Pyramidal c. with dendritic tuft terminating in layer 4",
    "TPC_L1" := "[e] Tufted Pyramidal c. with dendritic tuft terminating in layer 1",
    "IPC" := "[e] Pyramidal c. with inverted apical-like dendrites",
    "BPC" := "[e] Pyramidal c. with bipolar apical-like dendrites"
  ]

  /** E-type codes and their labels, in the table's insertion order: the
      search for a matching code takes the first entry that fits. */
  const ETypes: seq<(string, string)> := [
    ("cAC", "Continuous Accommodating"),
    ("bAC", "Burst Accommodating"),
    ("cNAC", "Continuous Non-accommodating"),
    ("bNAC", "Burst Non-accommodating"),
    ("dNAC", "Delayed Non-accommodating"),
    ("cAD", "Continuous Adapting"),
    ("bIR", "Burst Irregular"),
    ("cIR", "Continuous Irregular"),
    ("dSTUT", "Delayed Stuttering"),
    ("bSTUT", "Burst Stuttering"),
    ("cSTUT", "Continuous Stuttering")
  ]

  /** The e-type table as a dictionary from code to label. */
  function LabelMap(entries: seq<(string, string)>): (m: map<string, string>)
    ensures forall key :: key in m <==> exists i :: 0 <= i < |entries| && entries[i].0 == key
  {
    if entries == [] then map[]
    else LabelMap(entries[..|entries| - 1])[entries[|entries| - 1].0 := entries[|entries| - 1].1]
  }

  /** The tables of Blue Brain Project cell names. */
  const Bbp: Tables := Tables(Layers, MTypes, ETypes)

  /** The Blue Brain Project tables hold the five cortical layers and eleven e-types. */
  lemma BbpTables()
    ensures Bbp.layers == Layers && Bbp.mTypes == MTypes && Bbp.eTypes == ETypes
    ensures Layers.Keys == {"L1", "L23", "L4", "L5", "L6"}
    ensures |ETypes| == 11
  {
  }

  /** No code occurs twice in the e-type table. */
  predicate DistinctKeys(entries: seq<(string, string)>) {
    forall i, j :: 0 <= i < j < |entries| ==> entries[i].0 != entries[j].0
  }

  /** With distinct codes, the dictionary gives every entry's own label. */
  lemma {:induction false} LabelMapAt(entries: seq<(string, string)>, i: nat)
    requires DistinctKeys(entries)
    requires i < |entries|
    ensures entries[i].0 in LabelMap(entries)
    ensures LabelMap(entries)[entries[i].0] == entries[i].1
  {
    var last := |entries| - 1;
    if i < last {
      assert DistinctKeys(entries[..last]);
      LabelMapAt(entries[..last], i);
      assert entries[..last][i] == entries[i];
    }
  }

  /** The e-type table's codes are distinct and none is empty. */
  lemma ETypeKeysDistinct()
    ensures DistinctKeys(ETypes)
    ensures forall i :: 0 <= i < |ETypes| ==> ETypes[i].0 != ""
  {
  }

  /** Every e-type code of the table looks up its own label. */
  lemma ETypeLabelAt(i: nat)
    requires i < |ETypes|
    ensures ETypes[i].0 in LabelMap(ETypes)
    ensures LabelMap(ETypes)[ETypes[i].0] == ETypes[i].1
  {
    ETypeKeysDistinct();
    LabelMapAt(ETypes, i);
  }

  /** The m-types that contain an underscore are exactly the two tufted
      pyramidal cells whose names therefore have more than four parts. */
  lemma UnderscoreMTypes()
    ensures forall m :: m in MTypes && '_' in m <==> m == "TPC_L4" || m == "TPC_L1"
  {
  }
}
