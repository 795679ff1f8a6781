/** Names in a DNS message with compression pointers (section 4.1.4 of RFC 1035): what a
    position of the message stands for, and the decoder dname_make_wire_from_packet. */
module Wire {
  import opened Bytes

  const MAXDOMAINLEN := 255

  /** Equal up to ASCII case. */
  predicate SameLabel(a: Label, b: Label)
  {
    |a| == |b| && forall i :: 0 <= i < |a| ==> Lower(a[i]) == Lower(b[i])
  }

  predicate SameLabels(a: seq<Label>, b: seq<Label>)
  {
    |a| == |b| && forall i :: 0 <= i < |a| ==> SameLabel(a[i], b[i])
  }

  /** Uncompressed wire format of labels, least significant first. */
  function WireBytes(labels: seq<Label>): (d: seq<byte>)
    requires forall l :: l in labels ==> |l| < 64
    ensures |d| == WireLen(labels)
  {
    if labels == [] then [0] else [|labels[0]|] + labels[0] + WireBytes(labels[1..])
  }

  function WireLen(labels: seq<Label>): (n: nat)
    ensures n >= 1
  {
    if labels == [] then 1 else 1 + |labels[0]| + WireLen(labels[1..])
  }

  function Pointer(hi: byte, lo: byte): (p: int)
    requires hi >= 192
  {
    (hi - 192) * 256 + lo
  }

  /** A name that is still waiting for its two length bytes at `hole` must not use them. */
  predicate Outside(hole: int, i: int)
  {
    i != hole && i != hole + 1
  }

  const NO_HOLE := -2

  predicate LabelAt(d: seq<byte>, pos: int, l: Label, hole: int)
  {
    && 1 <= |l| < 64
    && 0 <= pos && pos + 1 + |l| <= |d|
    && d[pos] == |l|
    && SameLabel(d[pos + 1..pos + 1 + |l|], l)
    && forall i :: pos <= i <= pos + |l| ==> Outside(hole, i)
  }

  /** The message bytes from `pos` stand for the name `labels` (up to case), every pointer leads
      strictly backwards, and no byte inside the hole is used. */
  ghost predicate Decodes(d: seq<byte>, pos: int, labels: seq<Label>, hole: int)
    decreases |labels|, pos
  {
    && 0 <= pos < |d| && Outside(hole, pos)
    && if d[pos] >= 192 then
         && pos + 1 < |d| && Outside(hole, pos + 1)
         && Pointer(d[pos], d[pos + 1]) < pos
         && Decodes(d, Pointer(d[pos], d[pos + 1]), labels, hole)
       else if labels == [] then d[pos] == 0
       else LabelAt(d, pos, labels[0], hole) && Decodes(d, pos + 1 + |labels[0]|, labels[1..], hole)
  }

  /** Where the bytes of the name at `pos` end: after its root label or its first pointer. */
  ghost function NameEnd(d: seq<byte>, pos: int, labels: seq<Label>, hole: int): (e: int)
    requires Decodes(d, pos, labels, hole)
    ensures pos < e <= |d|
    decreases |labels|
  {
    if d[pos] >= 192 then pos + 2
    else if labels == [] then pos + 1
    else NameEnd(d, pos + 1 + |labels[0]|, labels[1..], hole)
  }

  /** Appending to the message does not change what its positions stand for. */
  lemma {:induction false} DecodesGrow(d: seq<byte>, d': seq<byte>, pos: int, labels: seq<Label>, hole: int)
    requires d <= d' && Decodes(d, pos, labels, hole)
    ensures Decodes(d', pos, labels, hole) && NameEnd(d', pos, labels, hole) == NameEnd(d, pos, labels, hole)
    decreases |labels|, pos
  {
    if d[pos] >= 192 {
      DecodesGrow(d, d', Pointer(d[pos], d[pos + 1]), labels, hole);
    } else if labels != [] {
      assert d'[pos + 1..pos + 1 + |labels[0]|] == d[pos + 1..pos + 1 + |labels[0]|];
      DecodesGrow(d, d', pos + 1 + |labels[0]|, labels[1..], hole);
    }
  }

  /** Writing into the hole does not change what the positions stand for. */
  lemma {:induction false} DecodesFill(d: seq<byte>, d': seq<byte>, pos: int, labels: seq<Label>, hole: int)
    requires |d| == |d'| && forall i :: 0 <= i < |d| && Outside(hole, i) ==> d[i] == d'[i]
    requires Decodes(d, pos, labels, hole)
    ensures Decodes(d', pos, labels, NO_HOLE) && NameEnd(d', pos, labels, NO_HOLE) == NameEnd(d, pos, labels, hole)
    decreases |labels|, pos
  {
    if d[pos] >= 192 {
      DecodesFill(d, d', Pointer(d[pos], d[pos + 1]), labels, hole);
    } else if labels != [] {
      assert d'[pos + 1..pos + 1 + |labels[0]|] == d[pos + 1..pos + 1 + |labels[0]|];
      DecodesFill(d, d', pos + 1 + |labels[0]|, labels[1..], hole);
    }
  }

  /** Opening a hole beyond the end of the message. */
  lemma {:induction false} DecodesHole(d: seq<byte>, pos: int, labels: seq<Label>, hole: int)
    requires hole >= |d| && Decodes(d, pos, labels, NO_HOLE)
    ensures Decodes(d, pos, labels, hole)
    decreases |labels|, pos
  {
    if d[pos] >= 192 {
      DecodesHole(d, Pointer(d[pos], d[pos + 1]), labels, hole);
    } else if labels != [] {
      DecodesHole(d, pos + 1 + |labels[0]|, labels[1..], hole);
    }
  }

  /** A position stands for names of one length only: a name cannot loop. */
  lemma {:induction false} DecodesLength(d: seq<byte>, pos: int, a: seq<Label>, b: seq<Label>, hole: int)
    requires Decodes(d, pos, a, hole) && Decodes(d, pos, b, hole)
    ensures |a| == |b|
    decreases |a|, pos
  {
    if d[pos] >= 192 {
      DecodesLength(d, Pointer(d[pos], d[pos + 1]), a, b, hole);
    } else if a != [] && b != [] {
      DecodesLength(d, pos + 1 + |a[0]|, a[1..], b[1..], hole);
    }
  }

  // -------------------------------------------------------------------- the decoder

  /** Length-prefixed labels without the root label. */
  function LabelBytes(labels: seq<Label>): (d: seq<byte>)
    requires forall l :: l in labels ==> |l| < 64
  {
    if labels == [] then [] else [|labels[0]|] + labels[0] + LabelBytes(labels[1..])
  }

  lemma {:induction false} WireIsLabelsAndRoot(labels: seq<Label>)
    requires forall l :: l in labels ==> |l| < 64
    ensures WireBytes(labels) == LabelBytes(labels) + [0]
  {
    if labels != [] { WireIsLabelsAndRoot(labels[1..]); }
  }

  lemma {:induction false} LabelBytesSnoc(labels: seq<Label>, l: Label)
    requires (forall x :: x in labels ==> |x| < 64) && |l| < 64
    ensures (forall x :: x in labels + [l] ==> |x| < 64) && LabelBytes(labels + [l]) == LabelBytes(labels) + ([|l|] + l)
  {
    if labels == [] {
      assert labels + [l] == [l];
    } else {
      LabelBytesSnoc(labels[1..], l);
      assert (labels + [l])[1..] == labels[1..] + [l];
    }
  }

  /** The decoder at work on a position that stands for `labels`: `read` has been copied to `buf`,
      the rest of the name is at `pos`, and `left` remembers what was left at each visited position. */
  ghost predicate Decoding(d: seq<byte>, start: int, labels: seq<Label>, pos: int, mark: int, buf: seq<byte>,
                           read: seq<Label>, left: map<int, seq<Label>>)
  {
    && |read| <= |labels|
    && var rest := labels[|read|..];
    && Decodes(d, start, labels, NO_HOLE) && Decodes(d, pos, rest, NO_HOLE)
    && NameEnd(d, start, labels, NO_HOLE) == (if mark != -1 then mark else NameEnd(d, pos, rest, NO_HOLE))
    && SameLabels(read, labels[..|read|]) && (forall l :: l in read ==> |l| < 64)
    && buf == LabelBytes(read)
    && forall q :: q in left ==>
         Decodes(d, q, left[q], NO_HOLE) && (|rest| < |left[q]| || (|rest| == |left[q]| && pos < q))
  }

  lemma NotVisited(d: seq<byte>, start: int, labels: seq<Label>, pos: int, mark: int, buf: seq<byte>,
                   read: seq<Label>, left: map<int, seq<Label>>)
    requires Decoding(d, start, labels, pos, mark, buf, read, left)
    ensures pos !in left
  {
    if pos in left { DecodesLength(d, pos, left[pos], labels[|read|..], NO_HOLE); }
  }

  lemma PointerStep(d: seq<byte>, start: int, labels: seq<Label>, pos: int, mark: int, buf: seq<byte>,
                    read: seq<Label>, left: map<int, seq<Label>>)
    requires Decoding(d, start, labels, pos, mark, buf, read, left) && d[pos] >= 192
    ensures pos + 1 < |d|
    ensures Decoding(d, start, labels, Pointer(d[pos], d[pos + 1]), if mark == -1 then pos + 2 else mark, buf,
                     read, left[pos := labels[|read|..]])
  {
  }

  lemma LabelStep(d: seq<byte>, start: int, labels: seq<Label>, pos: int, mark: int, buf: seq<byte>,
                  read: seq<Label>, left: map<int, seq<Label>>, l: Label)
    requires Decoding(d, start, labels, pos, mark, buf, read, left) && 0 < d[pos] < 64
    requires pos + 1 + d[pos] <= |d| && l == d[pos + 1..pos + 1 + d[pos]]
    ensures Decoding(d, start, labels, pos + 1 + d[pos], mark, buf + ([d[pos]] + l), read + [l],
                     left[pos := labels[|read|..]])
  {
    var rest := labels[|read|..];
    assert |l| == d[pos];
    LabelBytesSnoc(read, l);
    assert labels[..|read| + 1] == labels[..|read|] + [rest[0]];
    assert rest[1..] == labels[|read| + 1..];
    assert |(read + [l])| == |read| + 1;
  }

  lemma RootStep(d: seq<byte>, start: int, labels: seq<Label>, pos: int, mark: int, buf: seq<byte>,
                 read: seq<Label>, left: map<int, seq<Label>>)
    requires Decoding(d, start, labels, pos, mark, buf, read, left) && d[pos] == 0
    ensures SameLabels(read, labels) && buf + [0] == WireBytes(read)
    ensures NameEnd(d, start, labels, NO_HOLE) == if mark != -1 then mark else pos + 1
  {
    assert labels[|read|..] == [] && labels[..|read|] == labels;
    WireIsLabelsAndRoot(read);
  }

  /** What is left always fits in the buffer of a name that is not too long. */
  lemma RoomLeft(d: seq<byte>, start: int, labels: seq<Label>, pos: int, mark: int, buf: seq<byte>,
                 read: seq<Label>, left: map<int, seq<Label>>)
    requires Decoding(d, start, labels, pos, mark, buf, read, left) && WireLen(labels) <= MAXDOMAINLEN && d[pos] < 64
    ensures |buf| + d[pos] + 1 <= MAXDOMAINLEN
  {
    var rest := labels[|read|..];
    assert labels[..|read|] + rest == labels;
    SameWireLen(read + rest, labels);
    WireLenSplit(read, rest);
  }

  lemma {:induction false} WireLenSplit(a: seq<Label>, b: seq<Label>)
    requires forall l :: l in a ==> |l| < 64
    ensures WireLen(a + b) == |LabelBytes(a)| + WireLen(b)
  {
    if a == [] {
      assert a + b == b;
    } else {
      WireLenSplit(a[1..], b);
      assert (a + b)[1..] == a[1..] + b;
    }
  }

  ghost function Positions(n: nat): (s: set<int>)
    ensures forall i :: i in s <==> 0 <= i < n
  {
    if n == 0 then {} else Positions(n - 1) + {n - 1}
  }

  lemma SameWireLen(a: seq<Label>, b: seq<Label>)
    requires SameLabels(a, b)
    ensures WireLen(a) == WireLen(b)
  {
    if a != [] {
      assert SameLabels(a[1..], b[1..]);
      SameWireLen(a[1..], b[1..]);
    }
  }

  /** The bytes of a label, its length first. */
  method CopyLabel(d: seq<byte>, pos: nat) returns (bytes: seq<byte>, ghost l: Label)
    requires pos < |d| && d[pos] < 64 && pos + 1 + d[pos] <= |d|
    ensures l == d[pos + 1..pos + 1 + d[pos]] && bytes == [d[pos]] + l && (d[pos] == 0 ==> bytes == [0])
  {
    bytes := d[pos..pos + 1 + d[pos]];
    l := d[pos + 1..pos + 1 + d[pos]];
  }

  /** A name without compression stands for itself. */
  lemma {:induction false} WireDecodes(d: seq<byte>, pos: nat, labels: seq<Label>)
    requires forall l :: l in labels ==> 1 <= |l| < 64
    requires pos + WireLen(labels) <= |d| && d[pos..pos + WireLen(labels)] == WireBytes(labels)
    ensures Decodes(d, pos, labels, NO_HOLE)
    decreases |labels|
  {
    if labels == [] {
      assert d[pos..pos + 1][0] == d[pos];
    } else {
      var l, rest := labels[0], WireBytes(labels[1..]);
      Slices(d, pos, l, rest);
      WireDecodes(d, pos + 1 + |l|, labels[1..]);
      assert LabelAt(d, pos, l, NO_HOLE);
    }
  }

  /** A length, a label and the rest, one after the other. */
  lemma Slices(d: seq<byte>, pos: nat, l: Label, rest: seq<byte>)
    requires 1 <= |l| < 64 && pos + 1 + |l| + |rest| <= |d|
    requires d[pos..pos + 1 + |l| + |rest|] == [|l|] + l + rest
    ensures d[pos] == |l| && d[pos + 1..pos + 1 + |l|] == l && d[pos + 1 + |l|..pos + 1 + |l| + |rest|] == rest
  {
    var w := d[pos..pos + 1 + |l| + |rest|];
    assert w[0] == d[pos];
    forall i | 0 <= i < |l| ensures d[pos + 1..pos + 1 + |l|][i] == l[i] {
      assert w[1 + i] == d[pos + 1 + i];
    }
    forall i | 0 <= i < |rest| ensures d[pos + 1 + |l|..pos + 1 + |l| + |rest|][i] == rest[i] {
      assert w[1 + |l| + i] == d[pos + 1 + |l| + i];
    }
  }

  /** dname_make_wire_from_packet with pointers allowed: the uncompressed wire format of the name
      at `start` and the position after it, or a failure. */
  method DecodeName(d: seq<byte>, start: nat, ghost labels: seq<Label>)
    returns (ok: bool, buf: seq<byte>, end: int, ghost read: seq<Label>)
    requires start <= |d|
    ensures Decodes(d, start, labels, NO_HOLE) && WireLen(labels) <= MAXDOMAINLEN ==>
              && ok && SameLabels(read, labels) && (forall l :: l in read ==> |l| < 64)
              && buf == WireBytes(read) && end == NameEnd(d, start, labels, NO_HOLE)
  {
    ghost var good := Decodes(d, start, labels, NO_HOLE) && WireLen(labels) <= MAXDOMAINLEN;
    var visited: set<int>, pos, mark := {}, start, -1;
    buf, read := [], [];
    ghost var left: map<int, seq<Label>> := map[];
    ghost var positions := Positions(|d|);
    while true
      invariant 0 <= pos <= |d| && visited <= positions && visited == left.Keys
      invariant good ==> Decoding(d, start, labels, pos, mark, buf, read, left)
      decreases positions - visited
    {
      if good { NotVisited(d, start, labels, pos, mark, buf, read, left); }
      if pos + 1 > |d| { return false, [], start, []; }
      if pos in visited { return false, [], start, []; }
      visited := visited + {pos};
      assert pos in positions;
      ghost var left' := left[pos := if |read| <= |labels| then labels[|read|..] else []];
      if d[pos] >= 192 {
        if good { PointerStep(d, start, labels, pos, mark, buf, read, left); }
        if pos + 2 > |d| { return false, [], start, []; }
        var pointer := Pointer(d[pos], d[pos + 1]);
        if pointer >= |d| { return false, [], start, []; }
        if mark == -1 { mark := pos + 2; }
        pos := pointer;
      } else if d[pos] < 64 {
        var length := d[pos] + 1;
        if pos + length > |d| { return false, [], start, []; }
        if good { RoomLeft(d, start, labels, pos, mark, buf, read, left); }
        if |buf| + length >= MAXDOMAINLEN + 1 { return false, [], start, []; }
        var bytes; ghost var l;
        bytes, l := CopyLabel(d, pos);
        if length == 1 {
          if good { RootStep(d, start, labels, pos, mark, buf, read, left); }
          end := if mark != -1 then mark else pos + 1;
          return true, buf + bytes, end, read;
        }
        if good { LabelStep(d, start, labels, pos, mark, buf, read, left, l); }
        buf := buf + bytes;
        read := read + [l];
        pos := pos + length;
      } else {
        return false, [], start, [];
      }
      left := left';
    }
  }
}
