/**
 The decoded read and the classifiers the analyzer hook applies to it:
 variant detection (light vehicle or not) and the slot index of a read for
 each variant. A slot index of -1 means the read is rejected.
 */
module Classify {
  import opened Fields

  /** One decoded barcode read. `sequenceSize` and `sequenceIndex` are the
      structured-append metadata of the barcode (-1 when the barcode carries
      none); `isValid` is the decoder's own integrity verdict. */
  datatype ReadResult = ReadResult(text: string, sequenceSize: int, sequenceIndex: int, isValid: bool)

  /** A light vehicle's certificate is recognised by its first field being "K". */
  function IsLightVehicleResult(read: ReadResult): (light: bool)
    ensures light <==> read.text == "K" || (|read.text| >= 2 && read.text[..2] == "K/")
  {
    FirstFieldIs(read.text, "K");
    Split(read.text)[0] == "K"
  }

  /** Slot of a light-vehicle read: the second field is two characters whose
      first one, '2' or '3', numbers the code. */
  function DetectIndexForLightVehicle(read: ReadResult): (index: int)
    ensures -1 <= index <= 1
    ensures index != -1 ==> |Split(read.text)| >= 2 && |Split(read.text)[1]| == 2
  {
    var splited := Split(read.text);
    if |splited| < 2 || |splited[1]| != 2 then -1
    else
      var digit := splited[1][0];
      if digit == '2' then 0
      else if digit == '3' then 1
      else -1
  }

  /** Slot of a standard read, from its sequence metadata alone: the three
      parts of a 3-part sequence fill slots 0..2 and the two parts of a 2-part
      sequence fill slots 3 and 4. */
  function DetectIndexForNormalVehicle(read: ReadResult): (index: int)
    ensures -1 <= index <= 4
  {
    var size, position := read.sequenceSize, read.sequenceIndex;
    if size == 3 && position == 0 then 0
    else if size == 3 && position == 1 then 1
    else if size == 3 && position == 2 then 2
    else if size == 2 && position == 0 then 3
    else if size == 2 && position == 1 then 4
    else -1
  }

  /** The sequence position (size, index) of each standard slot: the inverse of
      `DetectIndexForNormalVehicle` on its accepted reads. */
  function NormalSlotPosition(slot: nat): (position: (int, int))
    requires slot < 5
    ensures position.0 == 2 || position.0 == 3
    ensures 0 <= position.1 < position.0
  {
    if slot < 3 then (3, slot) else (2, slot - 3)
  }

  /** A standard read lands in `slot` exactly when its metadata is that slot's
      sequence position, and it is rejected exactly when its metadata is no
      slot's position. */
  lemma NormalIndexInverse(read: ReadResult)
    ensures forall slot :: 0 <= slot < 5 ==>
      (DetectIndexForNormalVehicle(read) == slot <==>
        (read.sequenceSize, read.sequenceIndex) == NormalSlotPosition(slot))
    ensures DetectIndexForNormalVehicle(read) == -1 <==>
      forall slot :: 0 <= slot < 5 ==> (read.sequenceSize, read.sequenceIndex) != NormalSlotPosition(slot)
  {
    var index := DetectIndexForNormalVehicle(read);
    if index != -1 {
      assert (read.sequenceSize, read.sequenceIndex) == NormalSlotPosition(index);
    }
  }

  /** The standard slot depends only on the metadata, never on the text or
      the validity flag. */
  lemma NormalIndexIgnoresText(a: ReadResult, b: ReadResult)
    requires a.sequenceSize == b.sequenceSize && a.sequenceIndex == b.sequenceIndex
    ensures DetectIndexForNormalVehicle(a) == DetectIndexForNormalVehicle(b)
  {
  }

  /** Variant detection and the light-vehicle slot depend only on the text. */
  lemma LightClassifiersIgnoreMetadata(a: ReadResult, b: ReadResult)
    requires a.text == b.text
    ensures IsLightVehicleResult(a) == IsLightVehicleResult(b)
    ensures DetectIndexForLightVehicle(a) == DetectIndexForLightVehicle(b)
  {
  }

  /** Variant detection on a text assembled from slash-free fields: light
      exactly when the first field is "K". */
  lemma LightOfJoin(fields: seq<string>, read: ReadResult)
    requires |fields| >= 1 && SlashFree(fields)
    requires read.text == Join(fields)
    ensures IsLightVehicleResult(read) <==> fields[0] == "K"
  {
    JoinSplit(fields);
    FirstFieldIs(read.text, "K");
  }

  /** The light-vehicle slot of a text assembled from slash-free fields is
      read off the two-character second field: '2' for slot 0, '3' for
      slot 1, anything else rejected. */
  lemma LightIndexOfJoin(fields: seq<string>, read: ReadResult)
    requires |fields| >= 1 && SlashFree(fields)
    requires read.text == Join(fields)
    ensures DetectIndexForLightVehicle(read) ==
      if |fields| >= 2 && |fields[1]| == 2 && fields[1][0] == '2' then 0
      else if |fields| >= 2 && |fields[1]| == 2 && fields[1][0] == '3' then 1
      else -1
  {
    JoinSplit(fields);
  }

  /** A read without any slash is never given a light-vehicle slot. */
  lemma LightIndexNeedsSlash(read: ReadResult)
    requires Slash !in read.text
    ensures DetectIndexForLightVehicle(read) == -1
  {
    CountCharZero(read.text, Slash);
    SplitFields(read.text);
  }
}
