/**
 * decodeDomainName of DNSQueryHandler (RFC 1035 section 3.1 names and the
 * compression of section 4.1.4, as the source reads them), together with
 * the label encoding the query builder writes.
 *
 * The decoder reads one octet and branches on it as a signed Java byte:
 *   - 0 ends the name; the trailing '.' of the accumulated text is dropped;
 *   - a value <= -64 (unsigned 128..192) is a pointer whose offset is the
 *     next octet alone; decoding continues there and the cursor ends two
 *     octets after the pointer;
 *   - anything else is a label length; a negative one (unsigned 193..255)
 *     copies nothing, so only the '.' is appended.
 * The source has no guard against pointer cycles; fuel bounds the number of
 * pointers followed and PointerLimit is reported when it runs out.
 */
module DomainName {
  import opened Wrappers
  import opened Octets
  import opened Text

  /** A length octet that is <= -64 as a signed byte. */
  predicate IsPointer(b: byte)
  {
    128 <= b <= 192
  }

  /**
   * decodeDomainName(buffer at pos, acc): the decoded name and the cursor
   * after it. The label text is accumulated in acc exactly as the source
   * threads its domainName argument through the recursion.
   */
  function DecodeName(buf: seq<byte>, pos: nat, acc: string, fuel: nat): (r: Result<(string, nat), DecodeError>)
    ensures r.Success? ==> pos < r.value.1 <= |buf|
    decreases fuel, |buf| - pos
  {
    if pos >= |buf| then Failure(Truncated)
    else if buf[pos] == 0 then Success((DropLast(acc), pos + 1))
    else if IsPointer(buf[pos]) then
      if pos + 1 >= |buf| then Failure(Truncated)
      else if fuel == 0 then Failure(PointerLimit)
      else
        var target :- DecodeName(buf, buf[pos + 1] as nat, acc, fuel - 1);
        Success((target.0, pos + 2))
    else if buf[pos] < 128 then
      var end := pos + 1 + buf[pos] as nat;
      if end > |buf| then Failure(Truncated)
      else DecodeName(buf, end, acc + Chars(buf[pos + 1..end]) + ".", fuel)
    else
      DecodeName(buf, pos + 1, acc + ".", fuel)
  }

  /**
   * The same octets read without an accumulator: the text of every label,
   * each followed by '.', and the cursor after the name. This is the
   * reference reading DecodeName is proved to agree with.
   */
  function LabelText(buf: seq<byte>, pos: nat, fuel: nat): Result<(string, nat), DecodeError>
    decreases fuel, |buf| - pos
  {
    if pos >= |buf| then Failure(Truncated)
    else if buf[pos] == 0 then Success(("", pos + 1))
    else if IsPointer(buf[pos]) then
      if pos + 1 >= |buf| then Failure(Truncated)
      else if fuel == 0 then Failure(PointerLimit)
      else MoveCursor(LabelText(buf, buf[pos + 1] as nat, fuel - 1), pos + 2)
    else if buf[pos] < 128 then
      var end := pos + 1 + buf[pos] as nat;
      if end > |buf| then Failure(Truncated)
      else Prepend(Chars(buf[pos + 1..end]) + ".", LabelText(buf, end, fuel))
    else
      Prepend(".", LabelText(buf, pos + 1, fuel))
  }

  function MoveCursor(r: Result<(string, nat), DecodeError>, next: nat): Result<(string, nat), DecodeError>
  {
    match r
    case Failure(e) => Failure(e)
    case Success((text, _)) => Success((text, next))
  }

  function Prepend(s: string, r: Result<(string, nat), DecodeError>): Result<(string, nat), DecodeError>
  {
    match r
    case Failure(e) => Failure(e)
    case Success((text, next)) => Success((s + text, next))
  }

  /** What DecodeName makes of a label text given the accumulated prefix. */
  function WithPrefix(acc: string, r: Result<(string, nat), DecodeError>): Result<(string, nat), DecodeError>
  {
    match r
    case Failure(e) => Failure(e)
    case Success((text, next)) => Success((DropLast(acc + text), next))
  }

  /** The accumulating decoder agrees with the direct reading: the name is the prefix and label text minus the final character. */
  lemma {:induction false} DecodeNameIsLabelText(buf: seq<byte>, pos: nat, acc: string, fuel: nat)
    ensures DecodeName(buf, pos, acc, fuel) == WithPrefix(acc, LabelText(buf, pos, fuel))
    decreases fuel, |buf| - pos
  {
    if pos >= |buf| {
    } else if buf[pos] == 0 {
      assert acc + "" == acc;
    } else if IsPointer(buf[pos]) {
      if pos + 1 < |buf| && fuel > 0 {
        DecodeNameIsLabelText(buf, buf[pos + 1] as nat, acc, fuel - 1);
      }
    } else if buf[pos] < 128 {
      var end := pos + 1 + buf[pos] as nat;
      if end <= |buf| {
        var piece := Chars(buf[pos + 1..end]) + ".";
        assert acc + Chars(buf[pos + 1..end]) + "." == acc + piece;
        DecodeNameIsLabelText(buf, end, acc + piece, fuel);
        PrefixAssociates(acc, piece, LabelText(buf, end, fuel));
      }
    } else {
      DecodeNameIsLabelText(buf, pos + 1, acc + ".", fuel);
      PrefixAssociates(acc, ".", LabelText(buf, pos + 1, fuel));
    }
  }

  lemma PrefixAssociates(acc: string, piece: string, r: Result<(string, nat), DecodeError>)
    ensures WithPrefix(acc + piece, r) == WithPrefix(acc, Prepend(piece, r))
  {
    if r.Success? {
      assert acc + piece + r.value.0 == acc + (piece + r.value.0);
    }
  }

  /**
   * Name compression is transparent: a name given as a pointer decodes to
   * exactly the name at the pointer's target, and the cursor ends two octets
   * past the pointer, never inside the pointed-to region.
   */
  lemma PointerIsTransparent(buf: seq<byte>, pos: nat, fuel: nat)
    requires pos + 1 < |buf| && IsPointer(buf[pos])
    ensures DecodeName(buf, pos, "", fuel + 1).Success? <==> DecodeName(buf, buf[pos + 1] as nat, "", fuel).Success?
    ensures DecodeName(buf, pos, "", fuel + 1).Success? ==>
              DecodeName(buf, pos, "", fuel + 1).value == (DecodeName(buf, buf[pos + 1] as nat, "", fuel).value.0, pos + 2)
  {
  }

  /** An octet 193..255 is a negative length: only the octet is consumed and a '.' appended. */
  lemma NegativeLengthAppendsDot(buf: seq<byte>, pos: nat, acc: string, fuel: nat)
    requires pos < |buf| && buf[pos] > 192
    ensures DecodeName(buf, pos, acc, fuel) == DecodeName(buf, pos + 1, acc + ".", fuel)
  {
  }

  // ----- the label encoding written by the query builder -----

  predicate AllAscii(labels: seq<string>)
  {
    forall i :: 0 <= i < |labels| ==> IsAscii(labels[i])
  }

  /** A length octet ((byte) length()) followed by the label's octets. */
  function EncodeLabel(part: string): (bs: seq<byte>)
    requires IsAscii(part)
    ensures |bs| == |part| + 1
  {
    [(|part| % 256) as byte] + AsciiBytes(part)
  }

  function EncodeLabels(labels: seq<string>): (bs: seq<byte>)
    requires AllAscii(labels)
  {
    if |labels| == 0 then [] else EncodeLabel(labels[0]) + EncodeLabels(labels[1..])
  }

  /** A QNAME: the encoded labels and the terminating zero octet. */
  function QName(labels: seq<string>): seq<byte>
    requires AllAscii(labels)
  {
    EncodeLabels(labels) + [0]
  }

  /** Every label costs its length octet, the same count as the '.' the text gives it. */
  lemma {:induction false} EncodedLength(labels: seq<string>)
    requires AllAscii(labels)
    ensures |EncodeLabels(labels)| == |Terminated(labels, '.')|
    decreases |labels|
  {
    if |labels| > 0 {
      EncodedLength(labels[1..]);
    }
  }

  /** Labels the decoder reads back as written: non-empty, ASCII, and short enough not to look like a pointer. */
  predicate ValidLabels(labels: seq<string>)
  {
    forall i :: 0 <= i < |labels| ==> 0 < |labels[i]| < 128 && IsAscii(labels[i])
  }

  /** One encoded label reads as its text and a '.', followed by whatever comes after it. */
  lemma LabelTextOfEncodedLabel(buf: seq<byte>, pos: nat, part: string, next: nat, fuel: nat)
    requires 0 < |part| < 128 && IsAscii(part)
    requires At(buf, pos, EncodeLabel(part)) && next == pos + |part| + 1
    ensures LabelText(buf, pos, fuel) == Prepend(part + ".", LabelText(buf, next, fuel))
  {
    var e := EncodeLabel(part);
    assert buf[pos] == e[0] == (|part| % 256) as byte;
    assert buf[pos] as nat == |part|;
    assert buf[pos + 1..next] == e[1..] == AsciiBytes(part);
    CharsOfAsciiBytes(part);
  }

  /** The octets bs occur in buf starting at pos. */
  predicate At(buf: seq<byte>, pos: nat, bs: seq<byte>)
  {
    pos + |bs| <= |buf| && buf[pos..pos + |bs|] == bs
  }

  lemma AtSplit(buf: seq<byte>, pos: nat, a: seq<byte>, b: seq<byte>)
    requires At(buf, pos, a + b)
    ensures At(buf, pos, a) && At(buf, pos + |a|, b)
  {
    assert buf[pos..pos + |a|] == (a + b)[..|a|];
    assert buf[pos + |a|..pos + |a| + |b|] == (a + b)[|a|..];
  }

  /** AtSplit with the second part's position named by the caller. */
  lemma AtSplitAt(buf: seq<byte>, pos: nat, a: seq<byte>, b: seq<byte>, mid: nat)
    requires At(buf, pos, a + b) && mid == pos + |a|
    ensures At(buf, pos, a) && At(buf, mid, b)
  {
    AtSplit(buf, pos, a, b);
  }

  /** Encoded labels followed by the rest of a name read as the labels, dotted, then the rest. */
  lemma {:induction false} LabelTextOfEncodedLabels(buf: seq<byte>, pos: nat, labels: seq<string>, end: nat, fuel: nat)
    requires ValidLabels(labels)
    requires At(buf, pos, EncodeLabels(labels)) && end == pos + |EncodeLabels(labels)|
    ensures LabelText(buf, pos, fuel) == Prepend(Terminated(labels, '.'), LabelText(buf, end, fuel))
    decreases |labels|
  {
    if |labels| == 0 {
      PrependEmpty(LabelText(buf, pos, fuel));
    } else {
      var part := labels[0];
      assert 0 < |part| < 128 && IsAscii(part);
      assert ValidLabels(labels[1..]);
      var rest := EncodeLabels(labels[1..]);
      AtSplit(buf, pos, EncodeLabel(part), rest);
      var mid := pos + |part| + 1;
      LabelTextOfEncodedLabel(buf, pos, part, mid, fuel);
      LabelTextOfEncodedLabels(buf, mid, labels[1..], end, fuel);
      assert Terminated(labels, '.') == part + "." + Terminated(labels[1..], '.');
      PrependTwice(part + ".", Terminated(labels[1..], '.'), LabelText(buf, end, fuel));
    }
  }

  lemma PrependEmpty(r: Result<(string, nat), DecodeError>)
    ensures Prepend("", r) == r
  {
    if r.Success? {
      assert "" + r.value.0 == r.value.0;
    }
  }

  lemma PrependTwice(a: string, b: string, r: Result<(string, nat), DecodeError>)
    ensures Prepend(a, Prepend(b, r)) == Prepend(a + b, r)
  {
    if r.Success? {
      assert a + (b + r.value.0) == a + b + r.value.0;
    }
  }

  /**
   * Round trip for names: a QNAME written from labels decodes back to the
   * labels joined by '.', with the cursor just past its zero octet.
   */
  lemma DecodeEncodedName(buf: seq<byte>, pos: nat, labels: seq<string>, end: nat, fuel: nat)
    requires |labels| >= 1 && ValidLabels(labels)
    requires At(buf, pos, QName(labels)) && end == pos + |QName(labels)|
    ensures DecodeName(buf, pos, "", fuel) == Success((Join(labels, '.'), end))
  {
    LabelTextOfQName(buf, pos, labels, end, fuel);
    DecodeNameIsLabelText(buf, pos, "", fuel);
    TerminatedIsJoin(labels, '.');
    assert "" + Terminated(labels, '.') == Terminated(labels, '.');
  }

  /** A QNAME written from labels reads as the dotted labels, with the cursor past its zero octet. */
  lemma LabelTextOfQName(buf: seq<byte>, pos: nat, labels: seq<string>, end: nat, fuel: nat)
    requires ValidLabels(labels)
    requires At(buf, pos, QName(labels)) && end == pos + |QName(labels)|
    ensures LabelText(buf, pos, fuel) == Success((Terminated(labels, '.'), end))
  {
    var e := EncodeLabels(labels);
    var last := pos + |e|;
    AtSplit(buf, pos, e, [0]);
    LabelTextOfEncodedLabels(buf, pos, labels, last, fuel);
    ZeroEndsText(buf, last, end, fuel);
    PrependOntoEnd(Terminated(labels, '.'), end);
  }

  /** A zero octet ends the label text, with the cursor just past it. */
  lemma ZeroEndsText(buf: seq<byte>, pos: nat, end: nat, fuel: nat)
    requires At(buf, pos, [0]) && end == pos + 1
    ensures LabelText(buf, pos, fuel) == Success(("", end))
  {
    assert buf[pos] == buf[pos..pos + 1][0];
  }

  lemma PrependOntoEnd(s: string, end: nat)
    ensures Prepend(s, Success(("", end))) == Success((s, end))
  {
    assert s + "" == s;
  }

  /**
   * A compressed name: labels written in place and then a 0xC0 pointer to a
   * QNAME elsewhere decode to all labels joined by '.', and the cursor ends
   * right after the pointer.
   */
  lemma DecodeCompressedName(buf: seq<byte>, pos: nat, prefix: seq<string>, offset: nat, suffix: seq<string>, fuel: nat)
    requires ValidLabels(prefix) && ValidLabels(suffix) && |suffix| >= 1
    requires offset < 256
    requires At(buf, pos, EncodeLabels(prefix) + [0xC0, offset as byte])
    requires At(buf, offset, QName(suffix))
    ensures DecodeName(buf, pos, "", fuel + 1) == Success((Join(prefix + suffix, '.'), pos + |EncodeLabels(prefix)| + 2))
  {
    var next := pos + |EncodeLabels(prefix)| + 2;
    LabelTextOfCompressedName(buf, pos, prefix, offset, suffix, next, fuel);
    TerminatedConcat(prefix, suffix, '.');
    DecodeNameIsLabelText(buf, pos, "", fuel + 1);
    TerminatedIsJoin(prefix + suffix, '.');
    assert "" + Terminated(prefix + suffix, '.') == Terminated(prefix + suffix, '.');
  }

  lemma LabelTextOfCompressedName(buf: seq<byte>, pos: nat, prefix: seq<string>, offset: nat, suffix: seq<string>, next: nat, fuel: nat)
    requires ValidLabels(prefix) && ValidLabels(suffix)
    requires offset < 256
    requires At(buf, pos, EncodeLabels(prefix) + [0xC0, offset as byte])
    requires At(buf, offset, QName(suffix))
    requires next == pos + |EncodeLabels(prefix)| + 2
    ensures LabelText(buf, pos, fuel + 1) == Success((Terminated(prefix, '.') + Terminated(suffix, '.'), next))
  {
    var e := EncodeLabels(prefix);
    var p := pos + |e|;
    AtSplit(buf, pos, e, [0xC0, offset as byte]);
    PointerReadsTarget(buf, p, offset, suffix, fuel);
    LabelTextOfEncodedLabels(buf, pos, prefix, p, fuel + 1);
    PrependTwice(Terminated(prefix, '.'), Terminated(suffix, '.'), Success(("", next)));
  }

  /** A 0xC0 pointer to a QNAME reads as the QNAME's dotted labels, with the cursor past the pointer. */
  lemma PointerReadsTarget(buf: seq<byte>, p: nat, offset: nat, suffix: seq<string>, fuel: nat)
    requires ValidLabels(suffix) && offset < 256
    requires At(buf, p, [0xC0, offset as byte])
    requires At(buf, offset, QName(suffix))
    ensures LabelText(buf, p, fuel + 1) == Success((Terminated(suffix, '.'), p + 2))
  {
    assert buf[p] == 0xC0 && buf[p + 1] == offset as byte;
    LabelTextOfQName(buf, offset, suffix, offset + |QName(suffix)|, fuel);
  }
}
