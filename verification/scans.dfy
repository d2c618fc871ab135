/**
 Whole scans: the record a completed scan yields, stated against the field
 lists the codes are made of, and worked examples for both variants.
 */
module Scans {
  import opened Wrappers
  import opened Fields
  import opened Classify
  import opened Assembly

  /** Field `i` of a field list, or the empty string past its end. */
  function FieldOr(fields: seq<string>, i: nat): string
  {
    if i < |fields| then fields[i] else ""
  }

  /** Standard extraction read against the fields of the two concatenated
      groups: the car type is the sixth field of the 3-part group; number,
      serial and prime-mover type are the second, fourth and fifth fields of
      the 2-part group without whitespace; missing fields give "". */
  lemma {:induction false} StandardDetailsOfFields(slots: Slots, a: seq<string>, b: seq<string>)
    requires |slots| == 5 && AllFilled(slots)
    requires |a| >= 1 && SlashFree(a) && |b| >= 1 && SlashFree(b)
    requires slots[0].value.text + slots[1].value.text + slots[2].value.text == Join(a)
    requires slots[3].value.text + slots[4].value.text == Join(b)
    ensures StandardDetails(slots) == VehicleDetails(
      FieldOr(a, 5),
      StripWhitespace(FieldOr(b, 1)),
      StripWhitespace(FieldOr(b, 3)),
      StripWhitespace(FieldOr(b, 4)))
  {
    FieldOfJoin(a, 5);
    FieldOfJoin(b, 1);
    FieldOfJoin(b, 3);
    FieldOfJoin(b, 4);
  }

  /** Light-vehicle extraction read against the fields of the two codes: the
      car type is the seventh field of the second code; number, serial and
      prime-mover type are the third, fifth and sixth fields of the first code
      without whitespace; missing fields give "". */
  lemma {:induction false} CompactDetailsOfFields(slots: Slots, a: seq<string>, b: seq<string>)
    requires |slots| == 2 && AllFilled(slots)
    requires |a| >= 1 && SlashFree(a) && |b| >= 1 && SlashFree(b)
    requires slots[0].value.text == Join(a)
    requires slots[1].value.text == Join(b)
    ensures CompactDetails(slots) == VehicleDetails(
      FieldOr(b, 6),
      StripWhitespace(FieldOr(a, 2)),
      StripWhitespace(FieldOr(a, 4)),
      StripWhitespace(FieldOr(a, 5)))
  {
    FieldOfJoin(b, 6);
    FieldOfJoin(a, 2);
    FieldOfJoin(a, 4);
    FieldOfJoin(a, 5);
  }

  /** Round trip of the extraction: codes whose fields carry a record's
      values (slash-free, and whitespace-free where the hook strips) yield that
      very record. */
  lemma {:induction false} CompactRecordRoundTrip(slots: Slots, a: seq<string>, b: seq<string>, d: VehicleDetails)
    requires |slots| == 2 && AllFilled(slots)
    requires |a| >= 6 && SlashFree(a) && |b| >= 7 && SlashFree(b)
    requires slots[0].value.text == Join(a) && slots[1].value.text == Join(b)
    requires b[6] == d.carType && a[2] == d.carNumber && a[4] == d.serialNumber && a[5] == d.primeMoverType
    requires NoWhitespace(d.carNumber) && NoWhitespace(d.serialNumber) && NoWhitespace(d.primeMoverType)
    ensures CompactDetails(slots) == d
  {
    CompactDetailsOfFields(slots, a, b);
    StripFixpoint(d.carNumber);
    StripFixpoint(d.serialNumber);
    StripFixpoint(d.primeMoverType);
  }

  /** Round trip of the standard extraction: a 3-part group and a 2-part
      group whose fields carry a record's values (slash-free, and
      whitespace-free where the hook strips) yield that very record. */
  lemma {:induction false} StandardRecordRoundTrip(slots: Slots, a: seq<string>, b: seq<string>, d: VehicleDetails)
    requires |slots| == 5 && AllFilled(slots)
    requires |a| >= 6 && SlashFree(a) && |b| >= 5 && SlashFree(b)
    requires slots[0].value.text + slots[1].value.text + slots[2].value.text == Join(a)
    requires slots[3].value.text + slots[4].value.text == Join(b)
    requires a[5] == d.carType && b[1] == d.carNumber && b[3] == d.serialNumber && b[4] == d.primeMoverType
    requires NoWhitespace(d.carNumber) && NoWhitespace(d.serialNumber) && NoWhitespace(d.primeMoverType)
    ensures StandardDetails(slots) == d
  {
    StandardDetailsOfFields(slots, a, b);
    StripFixpoint(d.carNumber);
    StripFixpoint(d.serialNumber);
    StripFixpoint(d.primeMoverType);
  }

  /** A light-vehicle scan: starting from any state (fresh, partial or
      completed, of either variant), a valid code numbered '2' followed by a
      valid code numbered '3' give a completed light scan holding exactly
      those two reads and their details. */
  lemma {:induction false} CompactScan(s: AnalyzerState, first: ReadResult, second: ReadResult)
    requires Valid(s)
    requires first.isValid && second.isValid
    requires IsLightVehicleResult(first) && IsLightVehicleResult(second)
    requires DetectIndexForLightVehicle(first) == 0 && DetectIndexForLightVehicle(second) == 1
    ensures var r := IngestAll(s, [first, second]);
      && r.isCompleted && r.isLightVehicle
      && r.readResults == [Some(first), Some(second)]
      && r.vehicleDetails == Some(CompactDetails([Some(first), Some(second)]))
  {
    var s1 := Ingest(s, first);
    if s.isLightVehicle {
      IngestSameVariant(s, first);
    } else {
      IngestVariantSwitch(s, first);
    }
    IngestSameVariant(s1, second);
    var s2 := Ingest(s1, second);
    assert s2.readResults == [Some(first), Some(second)];
    assert [first, second][1..] == [second];
    assert IngestAll(s, [first, second]) == IngestAll(s1, [second]) == s2;
  }

  /** The two light-vehicle codes read the other way round end in the same
      completed scan. */
  lemma {:induction false} CompactScanReversed(s: AnalyzerState, first: ReadResult, second: ReadResult)
    requires Valid(s)
    requires first.isValid && second.isValid
    requires IsLightVehicleResult(first) && IsLightVehicleResult(second)
    requires DetectIndexForLightVehicle(first) == 0 && DetectIndexForLightVehicle(second) == 1
    ensures var r := IngestAll(s, [second, first]);
      && r.isCompleted && r.isLightVehicle
      && r.readResults == [Some(first), Some(second)]
      && r.vehicleDetails == Some(CompactDetails([Some(first), Some(second)]))
  {
    var t1 := Ingest(s, second);
    if s.isLightVehicle {
      IngestSameVariant(s, second);
    } else {
      IngestVariantSwitch(s, second);
    }
    IngestSameVariant(t1, first);
    var t2 := Ingest(t1, first);
    assert t2.readResults == [Some(first), Some(second)];
    assert [second, first][1..] == [first];
    assert IngestAll(s, [second, first]) == IngestAll(t1, [first]) == t2;
  }

  /** The order of the two light-vehicle codes does not matter. */
  lemma {:induction false} CompactScanEitherOrder(s: AnalyzerState, first: ReadResult, second: ReadResult)
    requires Valid(s)
    requires first.isValid && second.isValid
    requires IsLightVehicleResult(first) && IsLightVehicleResult(second)
    requires DetectIndexForLightVehicle(first) == 0 && DetectIndexForLightVehicle(second) == 1
    ensures IngestAll(s, [second, first]) == IngestAll(s, [first, second])
  {
    CompactScan(s, first, second);
    CompactScanReversed(s, first, second);
  }

  /** The reads of a standard certificate: valid, not light, and read `i`
      carries the sequence position of slot `i`. */
  ghost predicate StandardCodes(codes: seq<ReadResult>)
  {
    && |codes| == 5
    && forall i :: 0 <= i < 5 ==>
         && codes[i].isValid
         && !IsLightVehicleResult(codes[i])
         && (codes[i].sequenceSize, codes[i].sequenceIndex) == NormalSlotPosition(i)
  }

  function Filled(codes: seq<ReadResult>): (slots: Slots)
    ensures |slots| == |codes| && AllFilled(slots)
  {
    seq(|codes|, i requires 0 <= i < |codes| => Some(codes[i]))
  }

  /** One standard step fills the code's own slot of the standard slots: the
      current ones, or fresh empty ones when the state was a light vehicle's. */
  lemma StandardStep(s: AnalyzerState, code: ReadResult, slot: nat)
    requires Valid(s) && slot < 5
    requires code.isValid && !IsLightVehicleResult(code)
    requires (code.sequenceSize, code.sequenceIndex) == NormalSlotPosition(slot)
    ensures var r := Ingest(s, code);
      var prev := if s.isLightVehicle then EmptySlots(5) else s.readResults;
      && !r.isLightVehicle
      && r.readResults == prev[slot := Some(code)]
  {
    NormalIndexInverse(code);
    if s.isLightVehicle {
      IngestVariantSwitch(s, code);
      var r := Ingest(s, code);
      assert r.readResults == EmptySlots(5)[slot := Some(code)];
    } else {
      IngestSameVariant(s, code);
    }
  }

  /** A standard scan: from any state of either variant, the five codes of a
      certificate ingested in sequence order complete the scan with exactly
      those reads in their slots and the standard details of them. */
  lemma StandardScan(s: AnalyzerState, codes: seq<ReadResult>)
    requires Valid(s)
    requires StandardCodes(codes)
    ensures var r := IngestAll(s, codes);
      && r.isCompleted && !r.isLightVehicle
      && r.readResults == Filled(codes)
      && r.vehicleDetails == Some(StandardDetails(Filled(codes)))
  {
    var s1 := Ingest(s, codes[0]);
    StandardStep(s, codes[0], 0);
    var s2 := Ingest(s1, codes[1]);
    StandardStep(s1, codes[1], 1);
    var s3 := Ingest(s2, codes[2]);
    StandardStep(s2, codes[2], 2);
    var s4 := Ingest(s3, codes[3]);
    StandardStep(s3, codes[3], 3);
    var s5 := Ingest(s4, codes[4]);
    StandardStep(s4, codes[4], 4);
    assert s5.readResults == Filled(codes);
    assert IngestAll(s4, codes[4..]) == s5 by {
      assert codes[4..][1..] == [];
    }
    assert codes[3..][1..] == codes[4..];
    assert codes[2..][1..] == codes[3..];
    assert codes[1..][1..] == codes[2..];
    assert IngestAll(s, codes) == IngestAll(s1, codes[1..]);
    assert IngestAll(s1, codes[1..]) == IngestAll(s2, codes[2..]);
    assert IngestAll(s2, codes[2..]) == IngestAll(s3, codes[3..]);
    assert IngestAll(s3, codes[3..]) == IngestAll(s4, codes[4..]);
  }

  /** Worked light-vehicle example: the car type comes from the second code,
      the other three values from the first, with the blank in "N 2"
      removed. The codes read "K/21/N 2/x/S/P" and "K/31/a/b/c/d/T". */
  lemma CompactExample(first: ReadResult, second: ReadResult)
    requires first.isValid && first.text == Join(["K", "21", "N 2", "x", "S", "P"])
    requires second.isValid && second.text == Join(["K", "31", "a", "b", "c", "d", "T"])
    ensures IngestAll(Initial(), [first, second]).vehicleDetails ==
      Some(VehicleDetails("T", "N2", "S", "P"))
  {
    var a := ["K", "21", "N 2", "x", "S", "P"];
    var b := ["K", "31", "a", "b", "c", "d", "T"];
    ExampleFieldsSlashFree(a);
    ExampleFieldsSlashFree(b);
    CompactExampleCodes(first, second);
    CompactScan(Initial(), first, second);
    CompactExampleDetails([Some(first), Some(second)], a, b);
  }

  lemma CompactExampleDetails(slots: Slots, a: seq<string>, b: seq<string>)
    requires |slots| == 2 && AllFilled(slots)
    requires |a| == 6 && SlashFree(a) && a[2] == "N 2" && a[4] == "S" && a[5] == "P"
    requires |b| == 7 && SlashFree(b) && b[6] == "T"
    requires slots[0].value.text == Join(a) && slots[1].value.text == Join(b)
    ensures CompactDetails(slots) == VehicleDetails("T", "N2", "S", "P")
  {
    CompactDetailsOfFields(slots, a, b);
    StripInnerBlank("N", "2");
    assert "N" + " " + "2" == "N 2" && "N" + "2" == "N2";
    StripFixpoint("S");
    StripFixpoint("P");
  }

  lemma CompactExampleCodes(first: ReadResult, second: ReadResult)
    requires first.text == Join(["K", "21", "N 2", "x", "S", "P"])
    requires second.text == Join(["K", "31", "a", "b", "c", "d", "T"])
    ensures IsLightVehicleResult(first) && DetectIndexForLightVehicle(first) == 0
    ensures IsLightVehicleResult(second) && DetectIndexForLightVehicle(second) == 1
  {
    var a := ["K", "21", "N 2", "x", "S", "P"];
    var b := ["K", "31", "a", "b", "c", "d", "T"];
    ExampleFieldsSlashFree(a);
    ExampleFieldsSlashFree(b);
    LightOfJoin(a, first);
    LightIndexOfJoin(a, first);
    LightOfJoin(b, second);
    LightIndexOfJoin(b, second);
  }

  lemma ExampleFieldsSlashFree(fields: seq<string>)
    requires fields == ["K", "21", "N 2", "x", "S", "P"] || fields == ["K", "31", "a", "b", "c", "d", "T"]
      || fields == ["a", "b", "c", "d", "e", "T"] || fields == ["2", "N 1", "x", "S 9", "P"]
    ensures SlashFree(fields)
  {
  }

  /** Worked standard example: fields run across code boundaries, since the
      hook concatenates the 3-part group and the 2-part group before
      splitting them. The codes read "a/b/", "c/d/e/", "T", "2/N" and
      " 1/x/S 9/P". */
  lemma StandardExample(codes: seq<ReadResult>)
    requires StandardCodes(codes)
    requires codes[0].text + codes[1].text + codes[2].text == Join(["a", "b", "c", "d", "e", "T"])
    requires codes[3].text + codes[4].text == Join(["2", "N 1", "x", "S 9", "P"])
    ensures IngestAll(Initial(), codes).vehicleDetails ==
      Some(VehicleDetails("T", "N1", "S9", "P"))
  {
    var a := ["a", "b", "c", "d", "e", "T"];
    var b := ["2", "N 1", "x", "S 9", "P"];
    ExampleFieldsSlashFree(a);
    ExampleFieldsSlashFree(b);
    StandardExampleDetails(Filled(codes), a, b);
    StandardScan(Initial(), codes);
  }

  lemma StandardExampleDetails(slots: Slots, a: seq<string>, b: seq<string>)
    requires |slots| == 5 && AllFilled(slots)
    requires |a| == 6 && SlashFree(a) && a[5] == "T"
    requires |b| == 5 && SlashFree(b) && b[1] == "N 1" && b[3] == "S 9" && b[4] == "P"
    requires slots[0].value.text + slots[1].value.text + slots[2].value.text == Join(a)
    requires slots[3].value.text + slots[4].value.text == Join(b)
    ensures StandardDetails(slots) == VehicleDetails("T", "N1", "S9", "P")
  {
    StandardDetailsOfFields(slots, a, b);
    StripInnerBlank("N", "1");
    assert "N" + " " + "1" == "N 1" && "N" + "1" == "N1";
    StripInnerBlank("S", "9");
    assert "S" + " " + "9" == "S 9" && "S" + "9" == "S9";
    StripFixpoint("P");
  }
}
