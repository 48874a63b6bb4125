/**
 The domain search list of section 2 of RFC 3397: each name as length-prefixed labels
 (section 3.1 of RFC 1035) ended by a zero length byte, without compression.
 */
module DomainNames {
  import opened Wrappers
  import opened Config

  const DOT: byte := 46
  const MAX_LABEL := 63

  type Labels = seq<Text>

  /** `strings.Split(name, ".")` */
  function Split(name: Text): (r: Labels)
    ensures r != []
  {
    if name == [] then [[]]
    else
      var rest := Split(name[1..]);
      if name[0] == DOT then [[]] + rest else [[name[0]] + rest[0]] + rest[1..]
  }

  /** `strings.TrimSuffix(name, ".")` */
  function TrimDot(name: Text): Text {
    if name != [] && name[|name| - 1] == DOT then name[..|name| - 1] else name
  }

  function NonEmpty(labels: Labels): Labels {
    if labels == [] then []
    else (if labels[0] == [] then [] else [labels[0]]) + NonEmpty(labels[1..])
  }

  /** What a dotted name means: its non-empty labels. */
  function LabelsOf(name: Text): Labels {
    NonEmpty(Split(name))
  }

  function EncodeLabel(segment: Text): seq<byte> {
    [|segment| % 0x100] + segment
  }

  function EncodeLabels(labels: Labels): seq<byte> {
    if labels == [] then [0] else EncodeLabel(labels[0]) + EncodeLabels(labels[1..])
  }

  /** encodeDomainName */
  function EncodeName(name: Text): seq<byte> {
    EncodeLabels(NonEmpty(Split(TrimDot(name))))
  }

  /** The value SetDomainSearch stores. */
  function EncodeNames(names: seq<Text>): seq<byte> {
    if names == [] then [] else EncodeName(names[0]) + EncodeNames(names[1..])
  }

  function MapLabels(names: seq<Text>): seq<Labels> {
    if names == [] then [] else [LabelsOf(names[0])] + MapLabels(names[1..])
  }

  /**
   A reader by section 3.1 of RFC 1035: a length byte of 64 or more is a compression
   pointer or reserved, and is refused.
   */
  function Decode(data: seq<byte>, current: Labels): Option<seq<Labels>>
    decreases |data|
  {
    if data == [] then if current == [] then Some([]) else None
    else if data[0] == 0 then
      match Decode(data[1..], [])
      case Some(rest) => Some([current] + rest)
      case None => None
    else if data[0] > MAX_LABEL || |data| < 1 + data[0] as int then None
    else Decode(data[1 + data[0] as int..], current + [data[1..1 + data[0] as int]])
  }

  // ---- Trailing dots ---------------------------------------------------------------

  lemma {:induction false} SplitAppendsDot(name: Text)
    ensures Split(name + [DOT]) == Split(name) + [[]]
  {
    if name == [] {
      assert name + [DOT] == [DOT];
    } else {
      assert (name + [DOT])[1..] == name[1..] + [DOT];
      SplitAppendsDot(name[1..]);
    }
  }

  lemma {:induction false} NonEmptyAppend(a: Labels, b: Labels)
    ensures NonEmpty(a + b) == NonEmpty(a) + NonEmpty(b)
  {
    if a == [] {
      assert a + b == b;
    } else {
      assert (a + b)[1..] == a[1..] + b;
      NonEmptyAppend(a[1..], b);
    }
  }

  /** A trailing dot does not change what a name means. */
  lemma TrailingDotIsIgnored(name: Text)
    ensures NonEmpty(Split(TrimDot(name))) == LabelsOf(name)
  {
    if TrimDot(name) != name {
      var trimmed := TrimDot(name);
      assert name == trimmed + [DOT];
      SplitAppendsDot(trimmed);
      NonEmptyAppend(Split(trimmed), [[]]);
    }
  }

  function JoinDots(labels: Labels): Text
    requires labels != []
  {
    if |labels| == 1 then labels[0] else labels[0] + [DOT] + JoinDots(labels[1..])
  }

  /** Splitting cuts at exactly the dots: the segments have none, and joined they are the name. */
  lemma {:induction false} SplitCutsAtDots(name: Text)
    ensures forall i | 0 <= i < |Split(name)| :: DOT !in Split(name)[i]
    ensures JoinDots(Split(name)) == name
  {
    if name != [] {
      SplitCutsAtDots(name[1..]);
      var rest := Split(name[1..]);
      if name[0] == DOT {
        assert Split(name)[1..] == rest;
      } else {
        assert Split(name)[1..] == rest[1..];
      }
    }
  }

  // ---- Unique decodability ---------------------------------------------------------

  predicate ShortLabels(labels: Labels) {
    forall i | 0 <= i < |labels| :: 1 <= |labels[i]| <= 63
  }

  predicate ShortNames(names: seq<Labels>) {
    forall i | 0 <= i < |names| :: ShortLabels(names[i])
  }

  lemma LabelReadsBack(segment: Text, tail: seq<byte>, current: Labels)
    requires 1 <= |segment| <= 63
    ensures Decode(EncodeLabel(segment) + tail, current) == Decode(tail, current + [segment])
  {
    var data := EncodeLabel(segment) + tail;
    assert data[0] == |segment|;
    assert data[1..1 + |segment|] == segment && data[1 + |segment|..] == tail;
  }

  lemma ZeroReadsBack(tail: seq<byte>, current: Labels)
    ensures Decode([0] + tail, current)
      == match Decode(tail, []) case Some(rest) => Some([current] + rest) case None => None
  {
    assert ([0] + tail)[1..] == tail;
  }

  lemma RestReads(rest: Option<seq<Labels>>, current: Labels, first: Text, more: Labels)
    ensures (match rest case Some(r) => Some([current + [first] + more] + r) case None => None)
      == (match rest case Some(r) => Some([current + ([first] + more)] + r) case None => None)
  {
    assert current + [first] + more == current + ([first] + more);
  }

  lemma {:induction false} LabelsReadBack(labels: Labels, tail: seq<byte>, current: Labels)
    requires ShortLabels(labels)
    ensures Decode(EncodeLabels(labels) + tail, current)
      == match Decode(tail, []) case Some(rest) => Some([current + labels] + rest) case None => None
    decreases |labels|
  {
    if labels == [] {
      ZeroReadsBack(tail, current);
      assert current + labels == current;
    } else {
      var more := EncodeLabels(labels[1..]) + tail;
      assert EncodeLabels(labels) + tail == EncodeLabel(labels[0]) + more;
      LabelReadsBack(labels[0], more, current);
      LabelsReadBack(labels[1..], tail, current + [labels[0]]);
      RestReads(Decode(tail, []), current, labels[0], labels[1..]);
      assert labels == [labels[0]] + labels[1..];
    }
  }

  lemma {:induction false} NamesReadBack(names: seq<Text>)
    requires ShortNames(MapLabels(names))
    ensures Decode(EncodeNames(names), []) == Some(MapLabels(names))
  {
    if names != [] {
      var all := MapLabels(names);
      assert ShortLabels(all[0]) && ShortNames(all[1..]) && all[1..] == MapLabels(names[1..]);
      NamesReadBack(names[1..]);
      TrailingDotIsIgnored(names[0]);
      LabelsReadBack(all[0], EncodeNames(names[1..]), []);
      assert [] + all[0] == all[0];
    }
  }

  /** Whatever is decoded has labels of 1 to 63 bytes. */
  lemma {:induction false} DecodedLabelsAreShort(data: seq<byte>, current: Labels)
    requires ShortLabels(current)
    ensures Decode(data, current).Some? ==> ShortNames(Decode(data, current).value)
    decreases |data|
  {
    if data == [] {
    } else if data[0] == 0 {
      DecodedLabelsAreShort(data[1..], []);
    } else if data[0] <= MAX_LABEL && |data| >= 1 + data[0] as int {
      DecodedLabelsAreShort(data[1 + data[0] as int..], current + [data[1..1 + data[0] as int]]);
    }
  }

  /**
   A search list reads back as the names it was made from -- each name's non-empty labels,
   name by name, no length byte taken for a pointer -- if and only if every label has at
   most 63 bytes.
   */
  lemma SearchListReadsBack(names: seq<Text>)
    ensures Decode(EncodeNames(names), []) == Some(MapLabels(names)) <==> ShortNames(MapLabels(names))
  {
    if ShortNames(MapLabels(names)) {
      NamesReadBack(names);
    }
    DecodedLabelsAreShort(EncodeNames(names), []);
  }

  // ---- In bytes --------------------------------------------------------------------

  /** A name is cut at its dots, byte 46, and nowhere else. */
  lemma {:induction false} SplitAtDot(a: Text, b: Text)
    requires 46 !in a
    ensures Split(a) == [a] && Split(a + [46] + b) == [a] + Split(b)
  {
    var whole := a + [46] + b;
    if a == [] {
      assert whole == [46] + b && whole[1..] == b;
    } else {
      SplitAtDot(a[1..], b);
      assert whole[1..] == a[1..] + [46] + b;
      assert a == [a[0]] + a[1..];
    }
  }

  /** A label is its length in one byte and its own bytes. */
  lemma LabelBytes(segment: Text)
    requires |segment| <= 255
    ensures EncodeLabel(segment) == [|segment|] + segment
  {
  }

  /** A name is its labels one after the other, and a zero; empty labels and a last dot add nothing. */
  lemma NameBytes(name: Text, segment: Text, labels: Labels)
    ensures EncodeName(name) == EncodeLabels(LabelsOf(name))
    ensures EncodeLabels([]) == [0] && EncodeLabels([segment] + labels) == EncodeLabel(segment) + EncodeLabels(labels)
    ensures NonEmpty([segment] + labels) == if segment == [] then NonEmpty(labels) else [segment] + NonEmpty(labels)
  {
    TrailingDotIsIgnored(name);
    assert ([segment] + labels)[1..] == labels;
  }

  /** Read back: a zero ends a name, and a byte of 64 or more is no length. */
  lemma DecodeReads(first: byte, tail: seq<byte>, current: Labels)
    ensures Decode([], []) == Some([]) && (current != [] ==> Decode([], current) == None)
    ensures Decode([0] + tail, current)
      == match Decode(tail, []) case Some(rest) => Some([current] + rest) case None => None
    ensures first >= 64 ==> Decode([first] + tail, current) == None
  {
    ZeroReadsBack(tail, current);
  }
}
