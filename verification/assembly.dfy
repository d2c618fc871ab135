/**
 The analyzer hook's state and its transitions. The hook keeps the slot
 array, the light-vehicle flag, the extracted vehicle details and the
 completed flag; `addReadResult` places one read, and an effect extracts the
 details once every slot is filled. Here the two happen as one atomic
 `Ingest` step, and `Clear` restores the initial state.
 */
module Assembly {
  import opened Wrappers
  import opened Fields
  import opened Classify

  /** The record read off a completed certificate. */
  datatype VehicleDetails = VehicleDetails(
    carType: string,
    carNumber: string,
    serialNumber: string,
    primeMoverType: string)

  type Slots = seq<Option<ReadResult>>

  datatype AnalyzerState = AnalyzerState(
    readResults: Slots,
    isLightVehicle: bool,
    vehicleDetails: Option<VehicleDetails>,
    isCompleted: bool)

  /** A light vehicle's certificate has two codes, a standard one five. */
  function SlotCount(isLightVehicle: bool): nat
  {
    if isLightVehicle then 2 else 5
  }

  /** The invariant of the hook's state: one slot per code of the current variant. */
  predicate Valid(s: AnalyzerState)
  {
    |s.readResults| == SlotCount(s.isLightVehicle)
  }

  function EmptySlots(n: nat): (slots: Slots)
    ensures |slots| == n
    ensures forall i :: 0 <= i < n ==> slots[i] == None
  {
    seq(n, _ => None)
  }

  predicate AllFilled(slots: Slots)
  {
    forall i :: 0 <= i < |slots| ==> slots[i].Some?
  }

  /** `readResults.filter((res) => res !== null).length` */
  function CountFilled(slots: Slots): nat
  {
    if |slots| == 0 then 0
    else (if slots[0].Some? then 1 else 0) + CountFilled(slots[1..])
  }

  /** The non-null count reaches the array length exactly when every slot is filled. */
  lemma {:induction false} CountFilledBound(slots: Slots)
    ensures CountFilled(slots) <= |slots|
    ensures CountFilled(slots) == |slots| <==> AllFilled(slots)
  {
    if |slots| > 0 {
      CountFilledBound(slots[1..]);
      assert AllFilled(slots) <==> slots[0].Some? && AllFilled(slots[1..]);
    }
  }

  lemma {:induction false} CountFilledEmpty(n: nat)
    ensures CountFilled(EmptySlots(n)) == 0
  {
    if n > 0 {
      assert EmptySlots(n)[1..] == EmptySlots(n - 1);
      CountFilledEmpty(n - 1);
    }
  }

  /** Filling one slot raises the count by one when it was empty, and leaves
      it when it was already filled. */
  lemma {:induction false} CountFilledUpdate(slots: Slots, i: nat, x: ReadResult)
    requires i < |slots|
    ensures CountFilled(slots[i := Some(x)]) == CountFilled(slots) + (if slots[i].None? then 1 else 0)
  {
    if i == 0 {
      assert slots[i := Some(x)][1..] == slots[1..];
    } else {
      assert slots[i := Some(x)][1..] == slots[1..][i - 1 := Some(x)];
      CountFilledUpdate(slots[1..], i - 1, x);
    }
  }

  /** The state the hook starts in: five empty slots, standard variant, no
      details, not completed. */
  function Initial(): (s: AnalyzerState)
    ensures Valid(s)
    ensures !s.isLightVehicle && |s.readResults| == 5
    ensures forall i :: 0 <= i < |s.readResults| ==> s.readResults[i] == None
    ensures s.vehicleDetails == None && !s.isCompleted
  {
    AnalyzerState(EmptySlots(5), false, None, false)
  }

  /** `clear`: whatever the state, back to the state the hook starts in. */
  function Clear(s: AnalyzerState): (r: AnalyzerState)
    ensures r == Initial()
    ensures Valid(r) && CountFilled(r.readResults) == 0
  {
    CountFilledEmpty(5);
    AnalyzerState(EmptySlots(5), false, None, false)
  }

  /** The slot the hook gives a read once the variant is decided. */
  function SlotIndex(isLightVehicle: bool, read: ReadResult): (index: int)
    ensures -1 <= index < SlotCount(isLightVehicle)
  {
    if isLightVehicle then DetectIndexForLightVehicle(read)
    else DetectIndexForNormalVehicle(read)
  }

  /** Standard details: the car type is field 5 of the first three codes
      concatenated; number, serial and prime-mover type are fields 1, 3 and 4
      of the last two codes concatenated, with all whitespace removed. */
  function StandardDetails(slots: Slots): (d: VehicleDetails)
    requires |slots| == 5 && AllFilled(slots)
    ensures Slash !in d.carType
    ensures NoWhitespace(d.carNumber) && NoWhitespace(d.serialNumber) && NoWhitespace(d.primeMoverType)
  {
    var qr2 := slots[3].value.text + slots[4].value.text;
    var qr3 := slots[0].value.text + slots[1].value.text + slots[2].value.text;
    StripLeavesNoWhitespace(Field(qr2, 1));
    StripLeavesNoWhitespace(Field(qr2, 3));
    StripLeavesNoWhitespace(Field(qr2, 4));
    VehicleDetails(
      Field(qr3, 5),
      StripWhitespace(Field(qr2, 1)),
      StripWhitespace(Field(qr2, 3)),
      StripWhitespace(Field(qr2, 4)))
  }

  /** Light-vehicle details: the car type is field 6 of the second code;
      number, serial and prime-mover type are fields 2, 4 and 5 of the first
      code, with all whitespace removed. */
  function CompactDetails(slots: Slots): (d: VehicleDetails)
    requires |slots| == 2 && AllFilled(slots)
    ensures Slash !in d.carType
    ensures NoWhitespace(d.carNumber) && NoWhitespace(d.serialNumber) && NoWhitespace(d.primeMoverType)
  {
    var qr2 := slots[0].value.text;
    var qr3 := slots[1].value.text;
    StripLeavesNoWhitespace(Field(qr2, 2));
    StripLeavesNoWhitespace(Field(qr2, 4));
    StripLeavesNoWhitespace(Field(qr2, 5));
    VehicleDetails(
      Field(qr3, 6),
      StripWhitespace(Field(qr2, 2)),
      StripWhitespace(Field(qr2, 4)),
      StripWhitespace(Field(qr2, 5)))
  }

  function DetailsOf(s: AnalyzerState): VehicleDetails
    requires Valid(s) && AllFilled(s.readResults)
  {
    if s.isLightVehicle then CompactDetails(s.readResults) else StandardDetails(s.readResults)
  }

  /** The completion effect: when the non-null count equals the variant's
      slot count, store the extracted details and mark the scan completed;
      otherwise change nothing (in particular never un-complete). */
  function Settle(s: AnalyzerState): (r: AnalyzerState)
    requires Valid(s)
    ensures Valid(r)
    ensures r.readResults == s.readResults && r.isLightVehicle == s.isLightVehicle
    ensures AllFilled(s.readResults) ==> r.isCompleted && r.vehicleDetails == Some(DetailsOf(s))
    ensures !AllFilled(s.readResults) ==> r == s
  {
    CountFilledBound(s.readResults);
    if !s.isLightVehicle && CountFilled(s.readResults) == 5 then
      s.(vehicleDetails := Some(StandardDetails(s.readResults)), isCompleted := true)
    else if s.isLightVehicle && CountFilled(s.readResults) == 2 then
      s.(vehicleDetails := Some(CompactDetails(s.readResults)), isCompleted := true)
    else
      s
  }

  /** A state the completion effect has nothing left to do for. */
  predicate Settled(s: AnalyzerState)
    requires Valid(s)
  {
    Settle(s) == s
  }

  /** Running the completion effect again changes nothing. */
  lemma SettleIdempotent(s: AnalyzerState)
    requires Valid(s)
    ensures Settled(Settle(s))
  {
  }

  /** `addReadResult`: drop an invalid read; otherwise take the read's
      variant, start from fresh empty slots when the variant changed, and
      put the read into the slot it is classified to (if any). */
  function AddReadResult(s: AnalyzerState, read: ReadResult): (r: AnalyzerState)
    requires Valid(s)
    ensures Valid(r)
    ensures r.vehicleDetails == s.vehicleDetails && r.isCompleted == s.isCompleted
  {
    if !read.isValid then s
    else
      var light := IsLightVehicleResult(read);
      var prev := if light != s.isLightVehicle then EmptySlots(SlotCount(light)) else s.readResults;
      var index := SlotIndex(light, read);
      var slots := if index == -1 then prev else prev[index := Some(read)];
      s.(readResults := slots, isLightVehicle := light)
  }

  /** One atomic step of the hook: place the read, then run the completion
      effect. An invalid read changes nothing; a completed scan stays
      completed; a valid read completes the scan exactly when it was already
      completed or leaves every slot filled. */
  function Ingest(s: AnalyzerState, read: ReadResult): (r: AnalyzerState)
    requires Valid(s)
    ensures Valid(r)
    ensures !read.isValid ==> r == s
    ensures s.isCompleted ==> r.isCompleted
    ensures read.isValid ==> (r.isCompleted <==> s.isCompleted || AllFilled(r.readResults))
    ensures read.isValid ==> r.isLightVehicle == IsLightVehicleResult(read)
  {
    if !read.isValid then s else Settle(AddReadResult(s, read))
  }

  /** A variant switch discards every earlier slot: the new array has the new
      variant's length and holds at most the read just ingested, and the flag
      takes the new variant even when the read is then rejected. */
  lemma IngestVariantSwitch(s: AnalyzerState, read: ReadResult)
    requires Valid(s) && read.isValid
    requires IsLightVehicleResult(read) != s.isLightVehicle
    ensures var r := Ingest(s, read);
      var index := SlotIndex(r.isLightVehicle, read);
      && r.isLightVehicle == !s.isLightVehicle
      && |r.readResults| == SlotCount(r.isLightVehicle)
      && (forall j :: 0 <= j < |r.readResults| ==>
            r.readResults[j] == if j == index then Some(read) else None)
      && CountFilled(r.readResults) == if index == -1 then 0 else 1
  {
    var light := IsLightVehicleResult(read);
    var index := SlotIndex(light, read);
    CountFilledEmpty(SlotCount(light));
    if index != -1 {
      CountFilledUpdate(EmptySlots(SlotCount(light)), index, read);
    }
  }

  /** Without a variant switch, a read touches only its own slot: an accepted
      read overwrites that slot and no other, a rejected one changes no slot. */
  lemma IngestSameVariant(s: AnalyzerState, read: ReadResult)
    requires Valid(s) && read.isValid
    requires IsLightVehicleResult(read) == s.isLightVehicle
    ensures var r := Ingest(s, read);
      var index := SlotIndex(s.isLightVehicle, read);
      && r.isLightVehicle == s.isLightVehicle
      && |r.readResults| == |s.readResults|
      && (forall j :: 0 <= j < |r.readResults| && j != index ==> r.readResults[j] == s.readResults[j])
      && (index != -1 ==> r.readResults[index] == Some(read))
  {
  }

  /** Ingesting the same read twice in a row is the same as ingesting it once. */
  lemma IngestIdempotent(s: AnalyzerState, read: ReadResult)
    requires Valid(s)
    ensures Ingest(Ingest(s, read), read) == Ingest(s, read)
  {
    if read.isValid {
      var once := Ingest(s, read);
      var light := IsLightVehicleResult(read);
      var index := SlotIndex(light, read);
      var added := AddReadResult(once, read);
      if index == -1 {
        assert added == once;
      } else {
        assert once.readResults[index] == Some(read);
        assert added.readResults == once.readResults[index := Some(read)] == once.readResults;
        assert added == once;
      }
      SettleIdempotent(AddReadResult(s, read));
    }
  }

  /** In a settled state, a valid read the current variant rejects changes nothing. */
  lemma IngestRejectedIsNoOp(s: AnalyzerState, read: ReadResult)
    requires Valid(s) && Settled(s)
    requires read.isValid && IsLightVehicleResult(read) == s.isLightVehicle
    requires SlotIndex(s.isLightVehicle, read) == -1
    ensures Ingest(s, read) == s
  {
  }

  /** Nothing stops a completed scan from taking reads: a read of the other
      variant replaces the slots with the new variant's, one filled at most,
      while the scan stays completed with its old details. */
  lemma IngestAfterCompletion(s: AnalyzerState, read: ReadResult)
    requires Valid(s) && s.isCompleted
    requires read.isValid && IsLightVehicleResult(read) != s.isLightVehicle
    ensures var r := Ingest(s, read);
      && r.isCompleted
      && r.vehicleDetails == s.vehicleDetails
      && r.isLightVehicle != s.isLightVehicle
      && |r.readResults| != |s.readResults|
      && CountFilled(r.readResults) <= 1
  {
    IngestVariantSwitch(s, read);
    var a := AddReadResult(s, read);
    CountFilledBound(a.readResults);
  }

  /** After completion, a read accepted without a variant switch refills its
      slot, and the completion effect then runs again on the full slots: the
      record is recomputed from the new texts, not kept from before. */
  lemma IngestRecomputesRecord(s: AnalyzerState, read: ReadResult)
    requires Valid(s) && AllFilled(s.readResults)
    requires read.isValid && IsLightVehicleResult(read) == s.isLightVehicle
    requires SlotIndex(s.isLightVehicle, read) != -1
    ensures var r := Ingest(s, read);
      && r.isCompleted
      && AllFilled(r.readResults)
      && r.vehicleDetails == Some(DetailsOf(r))
  {
  }

  /** A sequence of reads ingested one after the other. */
  function IngestAll(s: AnalyzerState, results: seq<ReadResult>): (r: AnalyzerState)
    requires Valid(s)
    ensures Valid(r)
    ensures s.isCompleted ==> r.isCompleted
    decreases |results|
  {
    if |results| == 0 then s else IngestAll(Ingest(s, results[0]), results[1..])
  }

  /** Every step leaves a settled state settled. */
  lemma IngestKeepsSettled(s: AnalyzerState, read: ReadResult)
    requires Valid(s) && Settled(s)
    ensures Settled(Ingest(s, read))
  {
    if read.isValid {
      SettleIdempotent(AddReadResult(s, read));
    }
  }

  /** Every state reachable from the initial one by ingesting reads keeps the
      invariant and has nothing left for the completion effect to do; so
      running the effect after every step, as `Ingest` does, agrees with
      running it only when the slots or the flag change. */
  lemma {:induction false} ReachableSettled(s: AnalyzerState, results: seq<ReadResult>)
    requires Valid(s) && Settled(s)
    ensures Valid(IngestAll(s, results)) && Settled(IngestAll(s, results))
    decreases |results|
  {
    if |results| > 0 {
      IngestKeepsSettled(s, results[0]);
      ReachableSettled(Ingest(s, results[0]), results[1..]);
    }
  }

  /** The initial state is settled, so every reachable state is. */
  lemma ReachableFromInitial(results: seq<ReadResult>)
    ensures Valid(IngestAll(Initial(), results)) && Settled(IngestAll(Initial(), results))
  {
    CountFilledBound(Initial().readResults);
    assert !AllFilled(Initial().readResults) by {
      assert Initial().readResults[0] == None;
    }
    ReachableSettled(Initial(), results);
  }

  /** Once completed, a scan stays completed whatever is ingested. */
  lemma {:induction false} CompletedIsSticky(s: AnalyzerState, results: seq<ReadResult>)
    requires Valid(s) && s.isCompleted
    ensures IngestAll(s, results).isCompleted
    decreases |results|
  {
    if |results| > 0 {
      CompletedIsSticky(Ingest(s, results[0]), results[1..]);
    }
  }
}
