/**
 Known values the library documents for node identifiers and node records,
 stated against the model.
 */
module StateExamples {
  import opened Bytes
  import opened Results
  import opened Hex
  import opened StateHelper
  import opened NodeState

  /** 02-00-4C-4F-4F-50, the address the library's examples use. */
  const EXAMPLE_ID: NodeId := [0x02, 0x00, 0x4C, 0x4F, 0x4F, 0x50]

  /** Encoding one more leading byte puts its group and a hyphen in front. */
  lemma EncodeMacCons(b: Byte, rest: seq<Byte>)
    requires |rest| > 0
    ensures EncodeMac([b] + rest) == ByteDigits(b, true) + "-" + EncodeMac(rest)
  {
    assert ([b] + rest)[1..] == rest;
  }

  // The example address encoded one group at a time, from the last group.

  lemma EncodeLastTwo()
    ensures EncodeMac([0x4F, 0x50]) == "4F-50"
  {
  }

  lemma EncodeLastThree()
    ensures EncodeMac([0x4F, 0x4F, 0x50]) == "4F-4F-50"
  {
    EncodeLastTwo();
    EncodeMacCons(0x4F, [0x4F, 0x50]);
  }

  lemma EncodeLastFour()
    ensures EncodeMac([0x4C, 0x4F, 0x4F, 0x50]) == "4C-4F-4F-50"
  {
    EncodeLastThree();
    EncodeMacCons(0x4C, [0x4F, 0x4F, 0x50]);
  }

  lemma EncodeLastFive()
    ensures EncodeMac([0x00, 0x4C, 0x4F, 0x4F, 0x50]) == "00-4C-4F-4F-50"
  {
    EncodeLastFour();
    EncodeMacCons(0x00, [0x4C, 0x4F, 0x4F, 0x50]);
  }

  lemma EncodeMacExample(id: NodeId)
    requires id == EXAMPLE_ID
    ensures EncodeMac(id) == "02-00-4C-4F-4F-50"
  {
    assert id == [id[0]] + id[1..];
    assert id[0] == 0x02 && id[1..] == [0x00, 0x4C, 0x4F, 0x4F, 0x50];
    EncodeMacCons(id[0], id[1..]);
    EncodeLastFive();
    assert ByteDigits(0x02, true) == "02";
  }

  lemma MacExample()
    ensures EncodeMac(EXAMPLE_ID) == "02-00-4C-4F-4F-50"
    ensures DecodeMac("02-00-4C-4F-4F-50") == Some(EXAMPLE_ID)
  {
    EncodeMacExample(EXAMPLE_ID);
    DecodeEncodeMac(EXAMPLE_ID);
  }

  /** 02-00-4C-4F-4F-55: the example address with a different last byte. */
  const OTHER_ID: NodeId := [0x02, 0x00, 0x4C, 0x4F, 0x4F, 0x55]

  /**
   Two records for the example address agree on equality and hash code, and a
   record for the other address differs from them in both.
   */
  lemma NodeIdentityExample(ts1: Int64, cs1: Int16, ts2: Int64, cs2: Int16)
    ensures SameNode(Node(EXAMPLE_ID, ts1, cs1), Node(EXAMPLE_ID, ts2, cs2))
    ensures HashCode(Node(EXAMPLE_ID, ts1, cs1)) == HashCode(Node(EXAMPLE_ID, ts2, cs2))
    ensures !SameNode(Node(OTHER_ID, ts2, cs2), Node(EXAMPLE_ID, ts1, cs1))
    ensures HashCode(Node(OTHER_ID, ts2, cs2)) != HashCode(Node(EXAMPLE_ID, ts1, cs1))
  {
    HashLastByteDistinct(OTHER_ID, EXAMPLE_ID);
  }
}
