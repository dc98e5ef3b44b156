/**
 The barcode typed into the dispensing form: a one-letter visit kind, the
 visit or admission number and the order number, joined by '|'.
 Outpatient barcodes read `O|<VN padded to 4>|<order>`, inpatient ones
 `i|<admit number>|<order>`.
 */
module Barcode {
  import opened Seqs
  import opened PyStr
  import opened Optional

  datatype Visit = Outpatient | Inpatient

  /** The letter in front of the barcode: 'O' for outpatients, lower-case
      'i' for inpatients. */
  function Prefix(v: Visit): string {
    match v
    case Outpatient => "O"
    case Inpatient => "i"
  }

  /** The width the outpatient visit number is zero-filled to. */
  const VisitNumberWidth: int := 4

  function Encode(v: Visit, id: string, order: string): string {
    Prefix(v) + "|" + id + "|" + order
  }

  datatype Fields = Fields(visit: Visit, id: string, order: string)

  /** Reads a barcode back into its three fields. Only a string of exactly
      three '|'-separated parts whose first part is a visit letter is a
      barcode; whatever decodes re-encodes to the very same string. */
  function Decode(b: string): (r: Option<Fields>)
    ensures r.Some? ==> Encode(r.value.visit, r.value.id, r.value.order) == b
    ensures r.Some? ==> '|' !in r.value.id && '|' !in r.value.order
  {
    var parts := Split(b, '|');
    if |parts| == 3 && (parts[0] == "O" || parts[0] == "i") then
      JoinSplit(b, '|');
      JoinThree(parts, '|');
      Some(Fields(if parts[0] == "O" then Outpatient else Inpatient, parts[1], parts[2]))
    else
      None
  }

  /** Decoding an encoded barcode gives back its fields, as long as neither
      number holds the separator. */
  lemma DecodeEncode(v: Visit, id: string, order: string)
    requires '|' !in id && '|' !in order
    ensures Decode(Encode(v, id, order)) == Some(Fields(v, id, order))
  {
    SplitThree(Prefix(v), id, order, '|');
  }

  /** Every barcode splits at its separators into the visit letter, then the
      parts of the number, then the parts of the order number, whatever the
      two numbers hold. */
  lemma EncodeSplits(v: Visit, id: string, order: string)
    ensures Split(Encode(v, id, order), '|') == [Prefix(v)] + Split(id, '|') + Split(order, '|')
  {
    SplitAround(Prefix(v), '|', id);
    SplitNone(Prefix(v), '|');
    SplitAround(Prefix(v) + "|" + id, '|', order);
  }

  /** Outpatient barcode: the visit number zero-filled to four characters.
      It starts with 'O' and splits into "O", the padded visit number's
      parts and the order number's parts; when neither number holds a '|',
      it reads back as its visit kind, the padded visit number and the order
      number. */
  function OutpatientBarcode(vn: string, order: string): (r: string)
    ensures |r| > 0 && r[0] == 'O'
    ensures Split(r, '|') == ["O"] + Split(ZFill(vn, VisitNumberWidth), '|') + Split(order, '|')
    ensures '|' !in vn && '|' !in order ==>
      Decode(r) == Some(Fields(Outpatient, ZFill(vn, VisitNumberWidth), order))
  {
    var padded := ZFill(vn, VisitNumberWidth);
    EncodeSplits(Outpatient, padded, order);
    assert '|' !in vn && '|' !in order ==>
      Decode(Encode(Outpatient, padded, order)) == Some(Fields(Outpatient, padded, order)) by {
      if '|' !in vn && '|' !in order {
        PaddingAddsNoSeparator(vn);
        DecodeEncode(Outpatient, padded, order);
      }
    }
    Encode(Outpatient, padded, order)
  }

  /** Inpatient barcode: the admission number as it is, never padded. It
      starts with 'i' and splits into "i", the admission number's parts and
      the order number's parts; when neither number holds a '|', it reads
      back as its visit kind, the admission number and the order number. */
  function InpatientBarcode(admit: string, order: string): (r: string)
    ensures |r| > 0 && r[0] == 'i'
    ensures Split(r, '|') == ["i"] + Split(admit, '|') + Split(order, '|')
    ensures '|' !in admit && '|' !in order ==>
      Decode(r) == Some(Fields(Inpatient, admit, order))
  {
    EncodeSplits(Inpatient, admit, order);
    assert '|' !in admit && '|' !in order ==>
      Decode(Encode(Inpatient, admit, order)) == Some(Fields(Inpatient, admit, order)) by {
      if '|' !in admit && '|' !in order {
        DecodeEncode(Inpatient, admit, order);
      }
    }
    Encode(Inpatient, admit, order)
  }

  /** Zero-filling adds only '0's, so it never introduces a separator. */
  lemma PaddingAddsNoSeparator(vn: string)
    requires '|' !in vn
    ensures '|' !in ZFill(vn, VisitNumberWidth)
  {
    var padded := ZFill(vn, VisitNumberWidth);
    forall i | 0 <= i < |padded|
      ensures padded[i] != '|'
    {
      assert padded[i] == '0' || padded[i] in vn;
    }
  }

  /** Two barcodes built from separator-free fields are equal only when the
      fields are. */
  lemma EncodeInjective(v: Visit, id: string, order: string, v': Visit, id': string, order': string)
    requires '|' !in id && '|' !in order && '|' !in id' && '|' !in order'
    requires Encode(v, id, order) == Encode(v', id', order')
    ensures v == v' && id == id' && order == order'
  {
    DecodeEncode(v, id, order);
    DecodeEncode(v', id', order');
  }

  /** Outpatient and inpatient barcodes never coincide: they differ in their
      first character. */
  lemma VisitKindsNeverCollide(vn: string, order: string, admit: string, order': string)
    ensures OutpatientBarcode(vn, order) != InpatientBarcode(admit, order')
  {
  }
}
