/** The filename decorator: every line of a list of Blue Brain Project cell
    names, such as `L5_TTPC1_cADpyr232_2`, is stripped, cut into its layer,
    m-type, e-type and instance parts, and written out as
    `name ::: <layer label> -- <m-type label> -- <e-type label>`.
    The first name that cannot be decoded ends the run. */
module Curation {
  import opened PyText
  import opened CellTables

  datatype Option<T> = None | Some(value: T)

  /** The exceptions that end a run. */
  datatype Error =
    | TooFewParts(parts: nat)      // `IndexError`: fewer than four `_`-separated parts
    | UnknownLayer(layer: string)  // `KeyError` from the layer table
    | UnknownMType(mType: string)  // `KeyError` from the m-type table
    | UnboundEType                 // `NameError`: no e-type code has matched in any name so far

  datatype Result<T> = Ok(value: T) | Err(error: Error)

  /** The parts of one cell name. The instance is read but never printed. */
  datatype Fields = Fields(layer: string, mType: string, eToken: string, instance: string)

  /** A cell name is `<layer>_<m-type>_<e-type token>_<instance>`; when it does not
      have exactly four parts the m-type spans two of them (`TPC_L4`). The
      instance stops at its first `.` (a leftover file extension). */
  function SplitName(name: string): (r: Result<Fields>)
    ensures r.Err? <==> |Split(name, '_')| < 4
    ensures r.Err? ==> r.error == TooFewParts(|Split(name, '_')|)
    ensures r.Ok? ==> '_' !in r.value.layer && '_' !in r.value.eToken && '_' !in r.value.instance
    ensures r.Ok? ==> '.' !in r.value.instance
    ensures r.Ok? ==> ('_' in r.value.mType <==> |Split(name, '_')| > 4)
    ensures r.Ok? ==>
      r.value.layer + "_" + r.value.mType + "_" + r.value.eToken + "_" + r.value.instance <= name
  {
    var parts := Split(name, '_');
    if |parts| == 4 then
      FieldsPrefix(parts, 3);
      Ok(Fields(parts[0], parts[1], parts[2], Split(parts[3], '.')[0]))
    else if |parts| > 4 then
      FieldsPrefix(parts, 4);
      Ok(Fields(parts[0], parts[1] + "_" + parts[2], parts[3], Split(parts[4], '.')[0]))
    else
      Err(TooFewParts(|parts|))
  }

  /** The pieces before `parts[last]`, and the part of `parts[last]` before its
      first `.`, are read off the front of the joined name. */
  lemma FieldsPrefix(parts: seq<string>, last: nat)
    requires 3 <= last <= 4 && last < |parts|
    requires forall p :: p in parts ==> '_' !in p
    ensures '_' !in parts[0] && '_' !in parts[last - 1]
    ensures '.' !in Split(parts[last], '.')[0] && '_' !in Split(parts[last], '.')[0]
    ensures JoinFront(parts[..last], '_') + Split(parts[last], '.')[0] <= Join(parts, '_')
    ensures last == 3 ==>
      JoinFront(parts[..last], '_') == parts[0] + "_" + parts[1] + "_" + parts[2] + "_"
    ensures last == 4 ==>
      JoinFront(parts[..last], '_') == parts[0] + "_" + (parts[1] + "_" + parts[2]) + "_" + parts[3] + "_"
  {
    assert parts[0] in parts && parts[last - 1] in parts && parts[last] in parts;
    InstancePrefix(parts[last]);
    var instance := Split(parts[last], '.')[0];
    assert forall k :: 0 <= k < |instance| ==> instance[k] == parts[last][k];
    JoinStartsWithFirst(parts[last..], '_');
    JoinAt(parts, '_', last);
    PrefixExtend(JoinFront(parts[..last], '_'), Split(parts[last], '.')[0], Join(parts[last..], '_'));
    if last == 3 {
      JoinFrontThree(parts[..3], '_');
    } else {
      JoinFrontFour(parts[..4], '_');
    }
  }

  /** The instance, the text before the first `.`, starts its part and has no `.`. */
  lemma InstancePrefix(part: string)
    ensures '.' !in Split(part, '.')[0]
    ensures Split(part, '.')[0] <= part
  {
    var pieces := Split(part, '.');
    assert pieces[0] in pieces;
    JoinStartsWithFirst(pieces, '.');
  }

  lemma PrefixExtend(front: string, a: string, b: string)
    requires a <= b
    ensures front + a <= front + b
  {
    assert (front + b)[..|front + a|] == front + b[..|a|];
  }

  lemma JoinFrontThree(s: seq<string>, sep: char)
    requires |s| == 3
    ensures JoinFront(s, sep) == s[0] + [sep] + s[1] + [sep] + s[2] + [sep]
  {
    assert s[1..][1..][1..] == [];
    assert JoinFront(s[1..][1..], sep) == s[2] + [sep];
    assert JoinFront(s[1..], sep) == s[1] + [sep] + s[2] + [sep];
  }

  lemma JoinFrontFour(s: seq<string>, sep: char)
    requires |s| == 4
    ensures JoinFront(s, sep) == s[0] + [sep] + (s[1] + [sep] + s[2]) + [sep] + s[3] + [sep]
  {
    assert s[1..][1..][1..][1..] == [];
    assert JoinFront(s[1..][1..][1..], sep) == s[3] + [sep];
    assert JoinFront(s[1..][1..], sep) == s[2] + [sep] + s[3] + [sep];
    assert JoinFront(s[1..], sep) == s[1] + [sep] + s[2] + [sep] + s[3] + [sep];
  }

  /** A join starts with its first piece. */
  lemma JoinStartsWithFirst(pieces: seq<string>, sep: char)
    requires |pieces| >= 1
    ensures pieces[0] <= Join(pieces, sep)
  {
  }

  /** A join cut in front of piece `k`. */
  lemma {:induction false} JoinAt(parts: seq<string>, sep: char, k: nat)
    requires k < |parts|
    ensures Join(parts, sep) == JoinFront(parts[..k], sep) + Join(parts[k..], sep)
    decreases k
  {
    if k > 0 {
      JoinAt(parts[1..], sep, k - 1);
      assert parts[1..][..k - 1] == parts[..k][1..];
      assert parts[1..][k - 1..] == parts[k..];
    }
  }

  /** Each piece followed by the separator. */
  function JoinFront(parts: seq<string>, sep: char): string {
    if parts == [] then "" else parts[0] + [sep] + JoinFront(parts[1..], sep)
  }

  /** A four-part name decodes to its own parts. */
  lemma FourPartName(layer: string, mType: string, eToken: string, tail: string)
    requires '_' !in layer && '_' !in mType && '_' !in eToken && '_' !in tail
    ensures SplitName(layer + "_" + mType + "_" + eToken + "_" + tail)
         == Ok(Fields(layer, mType, eToken, Split(tail, '.')[0]))
  {
    var parts := [layer, mType, eToken, tail];
    JoinFour(parts, '_');
    SplitJoin(parts, '_');
  }

  /** A name with more than four parts decodes with the second and third parts
      as its m-type and the fourth as its token; the instance comes from the
      fifth part, and any parts after it are ignored. */
  lemma ManyPartName(layer: string, mHead: string, mTail: string, eToken: string, tail: string)
    requires '_' !in layer && '_' !in mHead && '_' !in mTail && '_' !in eToken
    ensures SplitName(layer + "_" + mHead + "_" + mTail + "_" + eToken + "_" + tail)
         == Ok(Fields(layer, mHead + "_" + mTail, eToken, Split(Split(tail, '_')[0], '.')[0]))
  {
    var name := layer + "_" + mHead + "_" + mTail + "_" + eToken + "_" + tail;
    var parts := ManyParts(layer, mHead, mTail, eToken, tail);
    assert |parts| > 4 && parts[..4] == [layer, mHead, mTail, eToken] && parts[4] == Split(tail, '_')[0];
    assert SplitName(name) == Ok(Fields(parts[0], parts[1] + "_" + parts[2], parts[3], Split(parts[4], '.')[0]));
  }

  /** The pieces of a name with more than four parts: the first four, then the
      pieces of the rest. */
  lemma ManyParts(layer: string, mHead: string, mTail: string, eToken: string, tail: string)
    returns (parts: seq<string>)
    requires '_' !in layer && '_' !in mHead && '_' !in mTail && '_' !in eToken
    ensures parts == [layer, mHead, mTail, eToken] + Split(tail, '_')
    ensures Split(layer + "_" + mHead + "_" + mTail + "_" + eToken + "_" + tail, '_') == parts
  {
    var rest := Split(tail, '_');
    parts := [layer, mHead, mTail, eToken] + rest;
    assert parts[..4] == [layer, mHead, mTail, eToken] && parts[4..] == rest;
    JoinAt(parts, '_', 4);
    JoinFrontFour(parts[..4], '_');
    assert Join(rest, '_') == tail;
    assert Join(parts, '_') == layer + "_" + mHead + "_" + mTail + "_" + eToken + "_" + tail;
    assert forall p :: p in parts ==> '_' !in p by {
      assert forall p :: p in parts ==> p in [layer, mHead, mTail, eToken] || p in rest;
    }
    SplitJoin(parts, '_');
  }

  lemma JoinFour(parts: seq<string>, sep: char)
    requires |parts| == 4
    ensures Join(parts, sep) == parts[0] + [sep] + parts[1] + [sep] + parts[2] + [sep] + parts[3]
  {
    assert parts[1..][1..][1..] == [parts[3]];
    assert Join(parts[1..][1..], sep) == parts[2] + [sep] + parts[3];
  }

  /** The e-type code at position `i` of `entries` is the first in table order
      that occurs in `token`. */
  ghost predicate IsFirstMatch(entries: seq<(string, string)>, token: string, i: nat) {
    && i < |entries|
    && IsSubstring(entries[i].0, token)
    && forall j :: 0 <= j < i ==> !IsSubstring(entries[j].0, token)
  }

  /** No e-type code of `entries` occurs in `token`. */
  ghost predicate NoMatch(entries: seq<(string, string)>, token: string) {
    forall j :: 0 <= j < |entries| ==> !IsSubstring(entries[j].0, token)
  }

  /** The outcome of the e-type search, as a position in the e-type table. */
  ghost predicate IsSearchResult(entries: seq<(string, string)>, token: string, found: Option<nat>) {
    match found
    case Some(i) => IsFirstMatch(entries, token, i)
    case None => NoMatch(entries, token)
  }

  /** The first table position at or after `from` whose code occurs in `token`. */
  function FirstMatchFrom(entries: seq<(string, string)>, token: string, from: nat): (r: Option<nat>)
    requires from <= |entries|
    ensures r.Some? ==> from <= r.value < |entries| && IsSubstring(entries[r.value].0, token)
    ensures r.Some? ==> forall j :: from <= j < r.value ==> !IsSubstring(entries[j].0, token)
    ensures r.None? ==> forall j :: from <= j < |entries| ==> !IsSubstring(entries[j].0, token)
    decreases |entries| - from
  {
    if from == |entries| then None
    else if Contains(token, entries[from].0) then Some(from)
    else FirstMatchFrom(entries, token, from + 1)
  }

  /** The e-type search over the whole table. */
  function FirstMatch(entries: seq<(string, string)>, token: string): (r: Option<nat>)
    ensures IsSearchResult(entries, token, r)
  {
    FirstMatchFrom(entries, token, 0)
  }

  /** The search result is determined by the token. */
  lemma SearchResultUnique(entries: seq<(string, string)>, token: string, found: Option<nat>)
    requires IsSearchResult(entries, token, found)
    ensures found == FirstMatch(entries, token)
  {
  }

  /** The e-type search of the decode loop: walk the table in order and stop at
      the first code that occurs in the token. */
  method SearchEType(entries: seq<(string, string)>, token: string) returns (found: Option<nat>)
    ensures found.Some? ==> IsFirstMatch(entries, token, found.value)
    ensures found.None? ==> NoMatch(entries, token)
  {
    found := None;
    var i := 0;
    while i < |entries|
      invariant 0 <= i <= |entries|
      invariant found.None?
      invariant forall j :: 0 <= j < i ==> !IsSubstring(entries[j].0, token)
    {
      if Contains(token, entries[i].0) {
        found := Some(i);
        break;
      }
      i := i + 1;
    }
  }

  /** Each code of the e-type table is found at its own position when it is
      the whole token: no code occurs inside a later one, so none is shadowed. */
  lemma EveryCodeReachable(i: nat)
    requires i < |ETypes|
    ensures FirstMatch(ETypes, ETypes[i].0) == Some(i)
  {
    var key := ETypes[i].0;
    assert OccursAt(key, key, 0);
    forall j | 0 <= j < i
      ensures !IsSubstring(ETypes[j].0, key)
    {
      NotShadowed(i, j);
    }
    SearchResultUnique(ETypes, key, Some(i));
  }

  /** No e-type code occurs inside a later one. */
  lemma NotShadowed(i: nat, j: nat)
    requires j < i < |ETypes|
    ensures !IsSubstring(ETypes[j].0, ETypes[i].0)
  {
    var key, text := ETypes[j].0, ETypes[i].0;
    ETypeKeysDistinct();
    if |key| >= |text| {
      NotInsideShorter(key, text);
    } else if i >= 8 {
      MissingChar(key, text, if j < 6 then 'A' else 'I');
    } else if key[0] !in text {
      MissingChar(key, text, key[0]);
    } else {
      assert !Contains(text, key);
    }
  }

  /** A code no shorter than the token occurs in it only as the whole token. */
  lemma NotInsideShorter(key: string, text: string)
    requires |key| >= |text| && key != text
    ensures !IsSubstring(key, text)
  {
  }

  /** A code with a character the token lacks does not occur in it. */
  lemma MissingChar(key: string, text: string, c: char)
    requires c in key && c !in text
    ensures !IsSubstring(key, text)
  {
  }

  /** `e_type1` always holds a code of the e-type table, once it is bound. */
  ghost predicate ValidCode(t: Tables, eType1: Option<string>) {
    eType1.Some? ==> eType1.value in LabelMap(t.eTypes)
  }

  /** One output line: the stripped name, then the three labels. */
  function DecoratedLine(name: string, layerLabel: string, mTypeLabel: string, eTypeLabel: string): (line: string)
    ensures |name| + 5 < |line| && line[..|name|] == name && line[|name|..|name| + 5] == " ::: "
    ensures line[|line| - 1] == '\n'
  {
    name + " ::: " + layerLabel + " -- " + mTypeLabel + " -- " + eTypeLabel + "\n"
  }

  /** A line of the cell list after stripping and splitting. */
  datatype Parsed = Parsed(name: string, fields: Result<Fields>)

  function Parse(raw: string): (p: Parsed)
    ensures p.name == [] || (!IsSpace(p.name[0]) && !IsSpace(p.name[|p.name| - 1]))
    ensures p.fields.Err? <==> |Split(p.name, '_')| < 4
  {
    Parsed(Strip(raw), SplitName(Strip(raw)))
  }

  /** Every line of the cell list, stripped and split. */
  function ParseAll(lines: seq<string>): (ps: seq<Parsed>)
    ensures |ps| == |lines|
    ensures forall k :: 0 <= k < |lines| ==> ps[k] == Parse(lines[k])
  {
    if lines == [] then [] else [Parse(lines[0])] + ParseAll(lines[1..])
  }

  /** Parsing a list of two lines. */
  lemma ParseAllPair(first: string, second: string)
    ensures ParseAll([first, second]) == [Parse(first), Parse(second)]
  {
  }

  /** The e-type code found in the token of a name that splits, if any. */
  function CodeOf(t: Tables, p: Parsed): (c: Option<string>)
    ensures c.Some? <==> p.fields.Ok? && FirstMatch(t.eTypes, p.fields.value.eToken).Some?
    ensures c.Some? ==> c.value in LabelMap(t.eTypes) && IsSubstring(c.value, p.fields.value.eToken)
    ensures c.Some? ==> exists i: nat :: IsFirstMatch(t.eTypes, p.fields.value.eToken, i) && c.value == t.eTypes[i].0
  {
    match p.fields
    case Err(_) => None
    case Ok(f) =>
      match FirstMatch(t.eTypes, f.eToken)
      case Some(i) => Some(t.eTypes[i].0)
      case None => None
  }

  /** `e_type1` after decoding one name: the code found in its token, or the old value. */
  function NextCode(t: Tables, p: Parsed, eType1: Option<string>): (c: Option<string>)
    ensures ValidCode(t, eType1) ==> ValidCode(t, c)
    ensures c.None? <==> CodeOf(t, p).None? && eType1.None?
    ensures CodeOf(t, p).Some? ==> c == CodeOf(t, p)
    ensures CodeOf(t, p).None? ==> c == eType1
  {
    if CodeOf(t, p).Some? then CodeOf(t, p) else eType1
  }

  /** One pass of the decode loop over one name, given the `e_type1` left by
      the earlier names: the line written and the new `e_type1`, or the exception.
      The e-type search runs before the three table lookups, which are made in
      the order layer, m-type, e-type. */
  function DecodeName(t: Tables, p: Parsed, eType1: Option<string>): (r: Result<(string, Option<string>)>)
    requires ValidCode(t, eType1)
    ensures p.fields.Err? ==> r == Err(p.fields.error)
    ensures r.Ok? ==> r.value.1 == NextCode(t, p, eType1) && r.value.1.Some? && ValidCode(t, r.value.1)
    ensures p.fields.Ok? && r.Err? && r.error.UnboundEType? ==> eType1.None? && CodeOf(t, p).None?
  {
    match p.fields
    case Err(e) => Err(e)
    case Ok(f) =>
      var code := (match FirstMatch(t.eTypes, f.eToken)
        case Some(i) => Some(t.eTypes[i].0)
        case None => eType1);
      if f.layer !in t.layers then Err(UnknownLayer(f.layer))
      else if f.mType !in t.mTypes then Err(UnknownMType(f.mType))
      else if code.None? then Err(UnboundEType)
      else Ok((DecoratedLine(p.name, t.layers[f.layer], t.mTypes[f.mType], LabelMap(t.eTypes)[code.value]), code))
  }

  /** Which exception a name raises: too few parts first, then an unknown layer,
      then an unknown m-type, then an e-type that was never bound. */
  lemma DecodeNameErrors(t: Tables, raw: string, eType1: Option<string>)
    requires ValidCode(t, eType1)
    ensures DecodeName(t, Parse(raw), eType1) == Err(TooFewParts(|Split(Strip(raw), '_')|))
        <==> |Split(Strip(raw), '_')| < 4
    ensures (DecodeName(t, Parse(raw), eType1).Err? && DecodeName(t, Parse(raw), eType1).error.UnknownLayer?)
        <==> SplitName(Strip(raw)).Ok? && SplitName(Strip(raw)).value.layer !in t.layers
    ensures (DecodeName(t, Parse(raw), eType1).Err? && DecodeName(t, Parse(raw), eType1).error.UnknownMType?)
        <==> && SplitName(Strip(raw)).Ok?
             && SplitName(Strip(raw)).value.layer in t.layers
             && SplitName(Strip(raw)).value.mType !in t.mTypes
    ensures DecodeName(t, Parse(raw), eType1) == Err(UnboundEType)
        <==> && SplitName(Strip(raw)).Ok?
             && SplitName(Strip(raw)).value.layer in t.layers
             && SplitName(Strip(raw)).value.mType in t.mTypes
             && NoMatch(t.eTypes, SplitName(Strip(raw)).value.eToken)
             && eType1.None?
  {
  }

  /** A name that decodes writes the stripped name and its three labels, and
      leaves in `e_type1` the code its own token matched, or else the old one. */
  lemma DecodeNameWrites(t: Tables, raw: string, eType1: Option<string>)
    requires ValidCode(t, eType1)
    requires DecodeName(t, Parse(raw), eType1).Ok?
    ensures var (line, next) := DecodeName(t, Parse(raw), eType1).value;
      && SplitName(Strip(raw)).Ok?
      && next.Some? && ValidCode(t, next)
      && (match FirstMatch(t.eTypes, SplitName(Strip(raw)).value.eToken)
          case Some(i) => next == Some(t.eTypes[i].0)
          case None => next == eType1)
      && line == DecoratedLine(Strip(raw),
           t.layers[SplitName(Strip(raw)).value.layer],
           t.mTypes[SplitName(Strip(raw)).value.mType],
           LabelMap(t.eTypes)[next.value])
  {
  }

  /** The instance is read but plays no part in the line written or in `e_type1`. */
  lemma InstanceIgnored(t: Tables, name: string, f: Fields, instance: string, eType1: Option<string>)
    requires ValidCode(t, eType1)
    ensures DecodeName(t, Parsed(name, Ok(f)), eType1)
         == DecodeName(t, Parsed(name, Ok(f.(instance := instance))), eType1)
  {
  }

  /** A name whose layer and m-type are known and whose token holds code `i`
      (and no earlier one) is written with the labels of its three codes, and
      its code becomes `e_type1`, whatever `e_type1` held before. */
  lemma DecodeFound(t: Tables, p: Parsed, eType1: Option<string>, i: nat)
    requires ValidCode(t, eType1) && DistinctKeys(t.eTypes)
    requires p.fields.Ok? && p.fields.value.layer in t.layers && p.fields.value.mType in t.mTypes
    requires FirstMatch(t.eTypes, p.fields.value.eToken) == Some(i)
    ensures i < |t.eTypes|
    ensures DecodeName(t, p, eType1)
         == Ok((DecoratedLine(p.name, t.layers[p.fields.value.layer], t.mTypes[p.fields.value.mType], t.eTypes[i].1),
                Some(t.eTypes[i].0)))
  {
    LabelMapAt(t.eTypes, i);
  }

  /** A name whose token holds no code is written with the label of the code
      `e_type1` still holds from an earlier name, and leaves it in place. */
  lemma DecodeReused(t: Tables, p: Parsed, i: nat)
    requires DistinctKeys(t.eTypes) && i < |t.eTypes|
    requires p.fields.Ok? && p.fields.value.layer in t.layers && p.fields.value.mType in t.mTypes
    requires FirstMatch(t.eTypes, p.fields.value.eToken) == None
    ensures ValidCode(t, Some(t.eTypes[i].0))
    ensures DecodeName(t, p, Some(t.eTypes[i].0))
         == Ok((DecoratedLine(p.name, t.layers[p.fields.value.layer], t.mTypes[p.fields.value.mType], t.eTypes[i].1),
                Some(t.eTypes[i].0)))
  {
    LabelMapAt(t.eTypes, i);
  }

  /** What a run leaves behind: the lines written, and the exception that ended it
      early, if one did. */
  datatype Outcome = Outcome(written: seq<string>, failure: Option<Error>)

  /** The decode loop over the parsed names, starting from `e_type1`: at most one
      line per name, and exactly one per name when no exception ends the run. */
  function Decorate(t: Tables, ps: seq<Parsed>, eType1: Option<string>): (o: Outcome)
    requires ValidCode(t, eType1)
    ensures |o.written| <= |ps|
    ensures o.failure.None? <==> |o.written| == |ps|
    decreases |ps|
  {
    if ps == [] then Outcome([], None)
    else
      match DecodeName(t, ps[0], eType1)
      case Err(e) => Outcome([], Some(e))
      case Ok((line, next)) =>
        var rest := Decorate(t, ps[1..], next);
        Outcome([line] + rest.written, rest.failure)
  }

  /** The rest of one pass of the decode loop once the name is stripped and
      split: search the e-type table, updating `e_type1` only on a match, then
      look the three codes up. */
  method DecodeOne(t: Tables, p: Parsed, eType1: Option<string>) returns (r: Result<(string, Option<string>)>)
    requires ValidCode(t, eType1)
    ensures r == DecodeName(t, p, eType1)
  {
    if p.fields.Err? {
      return Err(p.fields.error);
    }
    var f := p.fields.value;
    var code := eType1;
    var found := SearchEType(t.eTypes, f.eToken);
    SearchResultUnique(t.eTypes, f.eToken, found);
    if found.Some? {
      code := Some(t.eTypes[found.value].0);
    }
    if f.layer !in t.layers {
      return Err(UnknownLayer(f.layer));
    }
    if f.mType !in t.mTypes {
      return Err(UnknownMType(f.mType));
    }
    if code.None? {
      return Err(UnboundEType);
    }
    var line := DecoratedLine(p.name, t.layers[f.layer], t.mTypes[f.mType], LabelMap(t.eTypes)[code.value]);
    return Ok((line, code));
  }

  /** Decoding the first name of a run that goes on. */
  lemma DecorateFirst(t: Tables, ps: seq<Parsed>, eType1: Option<string>)
    requires ValidCode(t, eType1)
    requires ps != [] && DecodeName(t, ps[0], eType1).Ok?
    ensures ValidCode(t, NextCode(t, ps[0], eType1))
    ensures DecodeName(t, ps[0], eType1).value.1 == NextCode(t, ps[0], eType1)
    ensures Decorate(t, ps, eType1).written
         == [DecodeName(t, ps[0], eType1).value.0] + Decorate(t, ps[1..], NextCode(t, ps[0], eType1)).written
    ensures Decorate(t, ps, eType1).failure == Decorate(t, ps[1..], NextCode(t, ps[0], eType1)).failure
  {
  }

  /** A run whose first name does not decode writes nothing. */
  lemma DecorateFirstFails(t: Tables, ps: seq<Parsed>, eType1: Option<string>)
    requires ValidCode(t, eType1)
    requires ps != [] && DecodeName(t, ps[0], eType1).Err?
    ensures Decorate(t, ps, eType1) == Outcome([], Some(DecodeName(t, ps[0], eType1).error))
  {
  }

  /** The lines `written` so far followed by the outcome of the rest of the run. */
  function After(written: seq<string>, rest: Outcome): Outcome {
    Outcome(written + rest.written, rest.failure)
  }

  /** The state of the decode loop before name `i`: `e_type1` holds a code of
      the table, and the whole run is the lines written so far followed by
      the run over the remaining names. */
  ghost predicate Midway(t: Tables, ps: seq<Parsed>, i: nat, written: seq<string>, eType1: Option<string>) {
    && i <= |ps|
    && ValidCode(t, eType1)
    && Decorate(t, ps, None) == After(written, Decorate(t, ps[i..], eType1))
  }

  /** The script: decode every line of the cell list in turn, carrying `e_type1`
      from one name to the next, appending one decorated line per name, and
      stopping at the first exception. */
  method DecorateAll(t: Tables, filenames: seq<string>) returns (written: seq<string>, failure: Option<Error>)
    ensures Outcome(written, failure) == Decorate(t, ParseAll(filenames), None)
  {
    written := [];
    failure := None;
    var eType1: Option<string> := None;
    var i := 0;
    ghost var ps := ParseAll(filenames);
    while i < |filenames|
      invariant Midway(t, ps, i, written, eType1)
    {
      var r := DecodeOne(t, Parse(filenames[i]), eType1);
      if r.Err? {
        DecorateHalts(t, ps, i, written, eType1);
        failure := Some(r.error);
        return;
      }
      DecorateAdvances(t, ps, i, written, eType1);
      written := written + [r.value.0];
      eType1 := r.value.1;
      i := i + 1;
    }
    DecorateDone(t, ps, written, eType1);
  }

  /** The loop invariant of `DecorateAll` after one more name has decoded. */
  lemma DecorateAdvances(t: Tables, ps: seq<Parsed>, i: nat, written: seq<string>, eType1: Option<string>)
    requires Midway(t, ps, i, written, eType1) && i < |ps| && DecodeName(t, ps[i], eType1).Ok?
    ensures var (line, next) := DecodeName(t, ps[i], eType1).value;
      Midway(t, ps, i + 1, written + [line], next)
  {
    assert ps[i..][0] == ps[i] && ps[i..][1..] == ps[i + 1..];
    DecorateFirst(t, ps[i..], eType1);
  }

  /** The outcome of `DecorateAll` once every name has decoded. */
  lemma DecorateDone(t: Tables, ps: seq<Parsed>, written: seq<string>, eType1: Option<string>)
    requires Midway(t, ps, |ps|, written, eType1)
    ensures Decorate(t, ps, None) == Outcome(written, None)
  {
    assert ps[|ps|..] == [];
    assert written + [] == written;
  }

  /** The outcome of `DecorateAll` when name `i` does not decode. */
  lemma DecorateHalts(t: Tables, ps: seq<Parsed>, i: nat, written: seq<string>, eType1: Option<string>)
    requires Midway(t, ps, i, written, eType1) && i < |ps| && DecodeName(t, ps[i], eType1).Err?
    ensures Decorate(t, ps, None) == Outcome(written, Some(DecodeName(t, ps[i], eType1).error))
  {
    assert ps[i..][0] == ps[i];
    DecorateFirstFails(t, ps[i..], eType1);
  }

  /** `e_type1` after decoding every name of `ps` in turn, starting from `eType1`. */
  function CarriedCode(t: Tables, ps: seq<Parsed>, eType1: Option<string>): (c: Option<string>)
    ensures ValidCode(t, eType1) ==> ValidCode(t, c)
    ensures eType1.Some? ==> c.Some?
    decreases |ps|
  {
    if ps == [] then eType1 else CarriedCode(t, ps[1..], NextCode(t, ps[0], eType1))
  }

  /** Carrying the code over one more name. */
  lemma {:induction false} CarriedCodeSnoc(t: Tables, ps: seq<Parsed>, p: Parsed, eType1: Option<string>)
    ensures CarriedCode(t, ps + [p], eType1) == NextCode(t, p, CarriedCode(t, ps, eType1))
    decreases |ps|
  {
    if ps != [] {
      assert (ps + [p])[1..] == ps[1..] + [p];
      CarriedCodeSnoc(t, ps[1..], p, NextCode(t, ps[0], eType1));
    }
  }

  /** The code in force after `ps` is the one found in the last name that
      has one: later names without a code leave it untouched. */
  lemma {:induction false} CarriedIsLatest(t: Tables, ps: seq<Parsed>, eType1: Option<string>, j: nat)
    requires j < |ps| && CodeOf(t, ps[j]).Some?
    requires forall k :: j < k < |ps| ==> CodeOf(t, ps[k]).None?
    ensures CarriedCode(t, ps, eType1) == CodeOf(t, ps[j])
    decreases |ps|
  {
    var last := |ps| - 1;
    assert ps == ps[..last] + [ps[last]];
    CarriedCodeSnoc(t, ps[..last], ps[last], eType1);
    if j < last {
      CarriedIsLatest(t, ps[..last], eType1, j);
    }
  }

  /** When no name has a code, the starting value is carried through unchanged. */
  lemma {:induction false} CarriedWithoutMatches(t: Tables, ps: seq<Parsed>, eType1: Option<string>)
    requires forall k :: 0 <= k < |ps| ==> CodeOf(t, ps[k]).None?
    ensures CarriedCode(t, ps, eType1) == eType1
    decreases |ps|
  {
    if ps != [] {
      CarriedWithoutMatches(t, ps[1..], eType1);
    }
  }

  /** The code carried over a prefix, seen from after its first name. */
  lemma CarriedAfterFirst(t: Tables, ps: seq<Parsed>, eType1: Option<string>, k: nat)
    requires 0 < k <= |ps|
    ensures CarriedCode(t, ps[..k], eType1) == CarriedCode(t, ps[1..][..k - 1], NextCode(t, ps[0], eType1))
  {
    assert ps[..k][1..] == ps[1..][..k - 1];
  }

  /** Line `k` of the output is the decoration of name `k`, decoded with the
      `e_type1` carried over from names `0..k`. */
  lemma {:induction false} DecorateWrites(t: Tables, ps: seq<Parsed>, eType1: Option<string>, k: nat)
    requires ValidCode(t, eType1)
    requires k < |Decorate(t, ps, eType1).written|
    ensures ValidCode(t, CarriedCode(t, ps[..k], eType1))
    ensures DecodeName(t, ps[k], CarriedCode(t, ps[..k], eType1))
         == Ok((Decorate(t, ps, eType1).written[k], CarriedCode(t, ps[..k + 1], eType1)))
    decreases |ps|
  {
    assert DecodeName(t, ps[0], eType1).Ok?;
    DecorateFirst(t, ps, eType1);
    var next := NextCode(t, ps[0], eType1);
    CarriedAfterFirst(t, ps, eType1, k + 1);
    if k > 0 {
      assert Decorate(t, ps, eType1).written[k] == Decorate(t, ps[1..], next).written[k - 1];
      assert ps[k] == ps[1..][k - 1];
      DecorateWrites(t, ps[1..], next, k - 1);
      CarriedAfterFirst(t, ps, eType1, k);
    } else {
      assert ps[..0] == [];
    }
  }

  /** A run that ends early stops at the first name that does not decode. */
  lemma {:induction false} DecorateStops(t: Tables, ps: seq<Parsed>, eType1: Option<string>)
    requires ValidCode(t, eType1)
    requires Decorate(t, ps, eType1).failure.Some?
    ensures var k := |Decorate(t, ps, eType1).written|;
      && k < |ps|
      && ValidCode(t, CarriedCode(t, ps[..k], eType1))
      && DecodeName(t, ps[k], CarriedCode(t, ps[..k], eType1)) == Err(Decorate(t, ps, eType1).failure.value)
    decreases |ps|
  {
    if DecodeName(t, ps[0], eType1).Ok? {
      DecorateFirst(t, ps, eType1);
      var next := NextCode(t, ps[0], eType1);
      DecorateStops(t, ps[1..], next);
      var k := |Decorate(t, ps, eType1).written|;
      assert k == 1 + |Decorate(t, ps[1..], next).written|;
      assert ps[k] == ps[1..][k - 1];
      CarriedAfterFirst(t, ps, eType1, k);
    } else {
      DecorateFirstFails(t, ps, eType1);
      assert ps[..0] == [];
    }
  }
}
