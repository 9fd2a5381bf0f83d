/** What the skipper accepts: exactly the encodings no deeper than its cap, up
    to two length fields whose 32-bit arithmetic wraps. */
module MsgpackSkip {
  import opened Bits
  import opened MsgpackFormat
  import opened MsgpackReader

  /** The reader's buffers fit the 32-bit address space. */
  const ADDRESS_SPACE: nat := 0x1_0000_0000
  const LONG: nat := 4

  /** `s` stands in `data` from `p` on. */
  predicate At(data: seq<byte>, p: nat, s: seq<byte>) {
    p + |s| <= |data| && forall i | 0 <= i < |s| :: data[p + i] == s[i]
  }

  lemma AtSplit(data: seq<byte>, p: nat, a: seq<byte>, b: seq<byte>)
    ensures At(data, p, a + b) <==> At(data, p, a) && At(data, p + |a|, b)
  {
    if At(data, p, a + b) {
      forall i | 0 <= i < |a| ensures data[p + i] == a[i] {
        assert (a + b)[i] == a[i];
      }
      forall i | 0 <= i < |b| ensures data[p + |a| + i] == b[i] {
        assert (a + b)[|a| + i] == b[i] && data[p + (|a| + i)] == (a + b)[|a| + i];
      }
    }
    if At(data, p, a) && At(data, p + |a|, b) {
      forall i | 0 <= i < |a + b| ensures data[p + i] == (a + b)[i] {
        if i >= |a| {
          assert data[p + |a| + (i - |a|)] == b[i - |a|];
        }
      }
    }
  }

  lemma AtFirst(data: seq<byte>, p: nat, s: seq<byte>)
    requires At(data, p, s) && s != []
    ensures data[p] == s[0]
  {
    assert data[p + 0] == s[0];
  }

  lemma AtSlice(data: seq<byte>, p: nat, s: seq<byte>)
    ensures At(data, p, s) <==> p + |s| <= |data| && data[p..p + |s|] == s
  {
    if p + |s| <= |data| && data[p..p + |s|] == s {
      forall i | 0 <= i < |s| ensures data[p + i] == s[i] {
        assert data[p..p + |s|][i] == data[p + i];
      }
    }
  }

  // ---- Every encoding is skipped ------------------------------------------

  /** The head the skipper reads back from an encoding that starts at `p`. */
  function HeadOf(w: Wire, p: nat): Head
    requires WellFormed(w)
  {
    match w
    case Array(width, kids) => Kids(p + 1 + width, |kids|, width > 0)
    case Map(width, kids) => Kids(p + 1 + width, |kids|, width > 0)
    case _ => Body(p + |Flat(w)|)
  }

  lemma Families(c: byte)
    ensures PlainTag(c) ==> Classify(c) == Whole(0)
    ensures FixedSize(c) > 0 ==> Classify(c) == Whole(FixedSize(c))
    ensures SizedWidth(c) > 0 ==> Classify(c) == Counted(SizedWidth(c))
    ensures ExtWidth(c) > 0 ==> Classify(c) == Extended(ExtWidth(c))
  {}

  lemma ShortFamilies(n: nat)
    ensures n < 32 ==> Classify(0xa0 + n) == Whole(n)
    ensures n < 16 ==> Classify(0x90 + n) == Few(n) && Classify(0x80 + n) == Few(2 * n)
  {}

  /** A tag and its length field, read back. */
  lemma FieldReads(data: seq<byte>, p: nat, tag: byte, width: nat, v: nat)
    requires (width == 1 || width == 2 || width == 4) && v < Limit(width) && At(data, p, [tag] + Be(width, v))
    ensures p + 1 + width <= |data| && data[p] == tag && BeAt(data, p + 1, width) == v
  {
    Ranges();
    AtSplit(data, p, [tag], Be(width, v));
    AtFirst(data, p, [tag]);
    BeReads(data, p + 1, width, v);
  }

  lemma SizedHeadReads(data: seq<byte>, p: nat, tag: byte, body: seq<byte>)
    requires SizedWidth(tag) > 0 && |body| < Limit(SizedWidth(tag)) && At(data, p, FlatSized(tag, body))
    ensures ReadHead(data, p) == Body(p + |FlatSized(tag, body)|) && !Wraps(data, p)
  {
    Families(tag);
    AtSplit(data, p, [tag] + Be(SizedWidth(tag), |body|), body);
    FieldReads(data, p, tag, SizedWidth(tag), |body|);
  }

  lemma ExtHeadReads(data: seq<byte>, p: nat, tag: byte, kind: byte, body: seq<byte>)
    requires ExtWidth(tag) > 0 && |body| < Limit(ExtWidth(tag)) && |body| + 1 < ADDRESS_SPACE
    requires At(data, p, FlatExt(tag, kind, body))
    ensures ReadHead(data, p) == Body(p + |FlatExt(tag, kind, body)|) && !Wraps(data, p)
  {
    Families(tag);
    AtSplit(data, p, [tag] + Be(ExtWidth(tag), |body|), [kind] + body);
    FieldReads(data, p, tag, ExtWidth(tag), |body|);
  }

  lemma SmallHeadReads(w: Wire, data: seq<byte>, p: nat)
    requires WellFormed(w) && (w.Plain? || w.Fixed? || w.FixStr?) && At(data, p, Flat(w))
    ensures ReadHead(data, p) == Body(p + |Flat(w)|) && !Wraps(data, p)
  {
    AtFirst(data, p, Flat(w));
    match w
    case Plain(tag) => Families(tag);
    case Fixed(tag, _) => Families(tag);
    case FixStr(body) => ShortFamilies(|body|);
  }

  lemma ArrayHeadReads(data: seq<byte>, p: nat, width: nat, n: nat)
    requires (width == 0 || width == 2 || width == 4) && n < Limit(width)
    requires At(data, p, ArrayHead(width, n))
    ensures ReadHead(data, p) == Kids(p + 1 + width, n, width > 0) && !Wraps(data, p)
  {
    if width > 0 {
      FieldReads(data, p, if width == 2 then 0xdc else 0xdd, width, n);
    } else {
      AtFirst(data, p, ArrayHead(width, n));
      ShortFamilies(n);
    }
  }

  lemma MapHeadReads(data: seq<byte>, p: nat, width: nat, n: nat)
    requires (width == 0 || width == 2 || width == 4) && n < Limit(width) && 2 * n < ADDRESS_SPACE
    requires At(data, p, MapHead(width, n))
    ensures ReadHead(data, p) == Kids(p + 1 + width, 2 * n, width > 0) && !Wraps(data, p)
  {
    if width > 0 {
      FieldReads(data, p, if width == 2 then 0xde else 0xdf, width, n);
    } else {
      AtFirst(data, p, MapHead(width, n));
      ShortFamilies(n);
    }
  }

  function Children(w: Wire): seq<Wire> {
    match w
    case Array(_, kids) => kids
    case Map(_, kids) => kids
    case _ => []
  }

  /** The skipper reads an encoding's head as it was written, and its 32-bit
      arithmetic does not wrap there. */
  lemma HeadReads(w: Wire, data: seq<byte>, p: nat)
    requires WellFormed(w) && At(data, p, Flat(w)) && |data| < ADDRESS_SPACE
    ensures ReadHead(data, p) == HeadOf(w, p) && !Wraps(data, p)
  {
    match w
    case Plain(_) => SmallHeadReads(w, data, p);
    case Fixed(_, _) => SmallHeadReads(w, data, p);
    case FixStr(_) => SmallHeadReads(w, data, p);
    case Sized(tag, body) => SizedHeadReads(data, p, tag, body);
    case Ext(tag, kind, body) => ExtHeadReads(data, p, tag, kind, body);
    case Array(width, kids) => ArrayTreeReads(w, data, p);
    case Map(width, kids) => MapTreeReads(w, data, p);
  }

  lemma ArrayTreeReads(w: Wire, data: seq<byte>, p: nat)
    requires w.Array? && WellFormed(w) && At(data, p, Flat(w))
    ensures ReadHead(data, p) == HeadOf(w, p) && !Wraps(data, p)
    ensures ChildrenAt(w, data, p)
  {
    AtSplit(data, p, ArrayHead(w.width, |w.kids|), FlatAll(w.kids));
    ArrayHeadReads(data, p, w.width, |w.kids|);
  }

  lemma MapTreeReads(w: Wire, data: seq<byte>, p: nat)
    requires w.Map? && WellFormed(w) && At(data, p, Flat(w)) && |data| < ADDRESS_SPACE
    ensures ReadHead(data, p) == HeadOf(w, p) && !Wraps(data, p)
    ensures ChildrenAt(w, data, p)
  {
    AtSplit(data, p, MapHead(w.width, |w.kids| / 2), FlatAll(w.kids));
    MapHeadReads(data, p, w.width, |w.kids| / 2);
  }

  ghost predicate ChildrenAt(w: Wire, data: seq<byte>, p: nat)
    requires WellFormed(w) && (w.Array? || w.Map?)
  {
    && At(data, HeadOf(w, p).first, FlatAll(w.kids))
    && HeadOf(w, p).first + |FlatAll(w.kids)| == p + |Flat(w)|
  }

  lemma ChildrenFollow(w: Wire, data: seq<byte>, p: nat)
    requires WellFormed(w) && At(data, p, Flat(w)) && |data| < ADDRESS_SPACE && HeadOf(w, p).Kids?
    ensures AllWellFormed(Children(w)) && At(data, HeadOf(w, p).first, FlatAll(Children(w)))
    ensures HeadOf(w, p).first + |FlatAll(Children(w))| == p + |Flat(w)|
  {
    if w.Array? {
      ArrayTreeReads(w, data, p);
    } else {
      MapTreeReads(w, data, p);
    }
  }

  lemma HeightOfKids(w: Wire, p: nat)
    requires WellFormed(w)
    ensures Height(w) == HeightAll(Children(w))
    ensures HeadOf(w, p).Kids? ==> HeadOf(w, p).count == |Children(w)|
    ensures HeadOf(w, p).Body? ==> Children(w) == []
  {}

  predicate ForestFits(ws: seq<Wire>, depth: nat) {
    ws == [] || depth + HeightAll(ws) - 1 <= MAX_DEPTH
  }

  /** Skipping an encoding leaves the cursor exactly behind it when no element
      sits more than eight levels down, and fails otherwise; the count check
      never turns an encoding away. */
  lemma {:induction false} SkipTree(w: Wire, data: seq<byte>, p: nat, depth: nat)
    requires WellFormed(w) && At(data, p, Flat(w)) && |data| < ADDRESS_SPACE
    ensures SkipDepth(data, p, depth) == if depth + Height(w) <= 8 then Reached(p + |Flat(w)|) else Failed
    decreases w, 0
  {
    HeadReads(w, data, p);
    HeightOfKids(w, p);
    if HeadOf(w, p).Kids? {
      ChildrenFollow(w, data, p);
      SkipForest(Children(w), data, HeadOf(w, p).first, depth + 1);
    }
  }

  lemma FirstThenRest(ws: seq<Wire>, data: seq<byte>, p: nat, w: Wire, rest: seq<Wire>)
    requires ws != [] && AllWellFormed(ws) && At(data, p, FlatAll(ws)) && w == ws[0] && rest == ws[1..]
    ensures At(data, p, Flat(w)) && At(data, p + |Flat(w)|, FlatAll(rest))
    ensures |FlatAll(ws)| == |Flat(w)| + |FlatAll(rest)|
  {
    AtSplit(data, p, Flat(w), FlatAll(rest));
  }

  lemma ForestFitsCons(ws: seq<Wire>, w: Wire, rest: seq<Wire>, depth: nat)
    requires ws != [] && w == ws[0] && rest == ws[1..]
    ensures ForestFits(ws, depth) <==> depth + Height(w) <= MAX_DEPTH && ForestFits(rest, depth)
  {}

  lemma SkipManyOn(data: seq<byte>, p: nat, count: nat, depth: nat, m: nat)
    requires p <= |data| && count > 0 && SkipDepth(data, p, depth) == Reached(m)
    ensures SkipMany(data, p, count, depth) == SkipMany(data, m, count - 1, depth)
  {}

  lemma SkipManyFails(data: seq<byte>, p: nat, count: nat, depth: nat)
    requires p <= |data| && count > 0 && SkipDepth(data, p, depth).Failed?
    ensures SkipMany(data, p, count, depth).Failed?
  {}

  lemma {:induction false} SkipForest(ws: seq<Wire>, data: seq<byte>, p: nat, depth: nat)
    requires AllWellFormed(ws) && At(data, p, FlatAll(ws)) && |data| < ADDRESS_SPACE
    ensures SkipMany(data, p, |ws|, depth) == if ForestFits(ws, depth) then Reached(p + |FlatAll(ws)|) else Failed
    decreases ws, 1
  {
    if ws == [] {
      SkipNothing(ws, data, p, depth);
    } else {
      var w, rest := ws[0], ws[1..];
      FirstThenRest(ws, data, p, w, rest);
      SkipTree(w, data, p, depth);
      SkipForest(rest, data, p + |Flat(w)|, depth);
      SkipForestStep(ws, w, rest, data, p, depth, p + |Flat(w)|, p + |FlatAll(ws)|);
    }
  }

  lemma SkipNothing(ws: seq<Wire>, data: seq<byte>, p: nat, depth: nat)
    requires ws == [] && p <= |data|
    ensures SkipMany(data, p, |ws|, depth) == Reached(p + |FlatAll(ws)|) && ForestFits(ws, depth)
  {}

  lemma SkipForestStep(ws: seq<Wire>, w: Wire, rest: seq<Wire>, data: seq<byte>, p: nat, depth: nat, m: nat, q: nat)
    requires ws != [] && w == ws[0] && rest == ws[1..] && p <= m <= q <= |data|
    requires SkipDepth(data, p, depth) == if depth + Height(w) <= MAX_DEPTH then Reached(m) else Failed
    requires SkipMany(data, m, |rest|, depth) == if ForestFits(rest, depth) then Reached(q) else Failed
    ensures SkipMany(data, p, |ws|, depth) == if ForestFits(ws, depth) then Reached(q) else Failed
  {
    ForestFitsCons(ws, w, rest, depth);
    if depth + Height(w) <= MAX_DEPTH {
      SkipManyOn(data, p, |ws|, depth, m);
    } else {
      SkipManyFails(data, p, |ws|, depth);
    }
  }

  // ---- Everything skipped is an encoding, unless a length wrapped -----------

  /** The two length fields whose 32-bit arithmetic wraps. */
  predicate Wraps(data: seq<byte>, p: nat)
    requires p < |data|
  {
    && p + 5 <= |data|
    && ((data[p] == 0xc9 && BeAt(data, p + 1, LONG) == 0xffff_ffff)
        || (data[p] == 0xdf && BeAt(data, p + 1, LONG) >= 0x8000_0000))
  }

  /** The skipper comes upon such a field. */
  predicate MeetsWrap(data: seq<byte>, p: nat, depth: nat)
    requires p <= |data|
    decreases |data| - p, 0
  {
    && p < |data| && depth <= MAX_DEPTH
    && (Wraps(data, p)
        || (var h := ReadHead(data, p); h.Kids? && MeetsWrapIn(data, h.first, h.count, depth + 1)))
  }

  predicate MeetsWrapIn(data: seq<byte>, p: nat, count: nat, depth: nat)
    requires p <= |data|
    decreases |data| - p, 1, count
  {
    && count > 0
    && (MeetsWrap(data, p, depth)
        || (var r := SkipDepth(data, p, depth); r.Reached? && MeetsWrapIn(data, r.at, count - 1, depth)))
  }

  lemma TagsOfFamilies(c: byte)
    ensures forall n: nat | Classify(c) == Whole(n) && !PlainTag(c) && !(0xa0 <= c <= 0xbf) :: FixedSize(c) == n > 0
    ensures forall n: nat | Classify(c) == Whole(n) && PlainTag(c) :: n == 0
    ensures forall n: nat | Classify(c) == Whole(n) && !PlainTag(c) && 0xa0 <= c <= 0xbf :: c - 0xa0 == n < 32
  {}

  lemma TagsOfCounted(c: byte)
    ensures forall n: nat | Classify(c) == Counted(n) :: SizedWidth(c) == n > 0
    ensures forall n: nat | Classify(c) == Extended(n) :: ExtWidth(c) == n && (n == 1 || n == 2 || c == 0xc9)
  {}

  lemma TagsOfMany(c: byte)
    ensures forall n: nat | Classify(c) == Many(n, false) :: (n == 2 && c == 0xdc) || (n == 4 && c == 0xdd)
    ensures forall n: nat | Classify(c) == Many(n, true) :: (n == 2 && c == 0xde) || (n == 4 && c == 0xdf)
  {}

  lemma FieldWrites(data: seq<byte>, p: nat, width: nat)
    requires (width == 1 || width == 2 || width == 4) && p + width <= |data|
    ensures Be(width, BeAt(data, p, width)) == data[p..p + width] && BeAt(data, p, width) < Limit(width)
  {
    BeRewrites(data, p, width);
    Ranges();
  }

  /** `w` is encoded by the bytes from `p` to `q`, followed by its `kids`. */
  ghost predicate Encodes(w: Wire, data: seq<byte>, p: nat, q: nat, kids: seq<Wire>)
    requires p <= q <= |data| && AllWellFormed(kids)
  {
    WellFormed(w) && Flat(w) == data[p..q] + FlatAll(kids) && Height(w) == HeightAll(kids)
  }

  lemma TagFirst(data: seq<byte>, p: nat, q: nat)
    requires p < q <= |data|
    ensures data[p..q] == [data[p]] + data[p + 1..q]
  {}

  lemma WholeIsTree(data: seq<byte>, p: nat, size: nat) returns (w: Wire)
    requires p + 1 + size <= |data| && Classify(data[p]) == Whole(size)
    ensures Encodes(w, data, p, p + 1 + size, [])
  {
    TagsOfFamilies(data[p]);
    var c, body := data[p], data[p + 1..p + 1 + size];
    w := if PlainTag(c) then Plain(c) else if 0xa0 <= c <= 0xbf then FixStr(body) else Fixed(c, body);
    TagFirst(data, p, p + 1 + size);
  }

  lemma CountedIsTree(data: seq<byte>, p: nat, width: nat) returns (w: Wire)
    requires p + 1 + width <= |data| && Classify(data[p]) == Counted(width)
    requires p + 1 + width + BeAt(data, p + 1, width) <= |data|
    ensures Encodes(w, data, p, p + 1 + width + BeAt(data, p + 1, width), [])
  {
    TagsOfCounted(data[p]);
    FieldWrites(data, p + 1, width);
    var b := p + 1 + width;
    var e := b + BeAt(data, p + 1, width);
    w := Sized(data[p], data[b..e]);
    JoinSlices(data, p, b, e);
    TagFirst(data, p, b);
  }

  lemma ExtendedIsTree(data: seq<byte>, p: nat, width: nat) returns (w: Wire)
    requires p + 1 + width <= |data| && Classify(data[p]) == Extended(width)
    requires p + 2 + width + BeAt(data, p + 1, width) <= |data|
    ensures Encodes(w, data, p, p + 2 + width + BeAt(data, p + 1, width), [])
  {
    TagsOfCounted(data[p]);
    FieldWrites(data, p + 1, width);
    var b := p + 1 + width;
    var e := b + 1 + BeAt(data, p + 1, width);
    w := Ext(data[p], data[b], data[b + 1..e]);
    JoinSlices(data, p, b, e);
    TagFirst(data, p, b);
    TagFirst(data, b, e);
  }

  lemma ExtendedDoesNotWrap(data: seq<byte>, p: nat, width: nat)
    requires p + 1 + width <= |data| && Classify(data[p]) == Extended(width) && !Wraps(data, p)
    ensures BeAt(data, p + 1, width) < 0xffff_ffff
  {
    TagsOfCounted(data[p]);
    FieldWrites(data, p + 1, width);
  }

  lemma BodyIsTree(data: seq<byte>, p: nat, end: nat) returns (w: Wire)
    requires p < |data| && ReadHead(data, p) == Body(end) && !Wraps(data, p) && end <= |data|
    ensures p <= end && Encodes(w, data, p, end, [])
  {
    w := Plain(0);
    match Classify(data[p])
    case Whole(size) => w := WholeIsTree(data, p, size);
    case Counted(width) => w := CountedIsTree(data, p, width);
    case Extended(width) =>
      ExtendedDoesNotWrap(data, p, width);
      w := ExtendedIsTree(data, p, width);
    case _ => assert false;
  }

  lemma FewElements(data: seq<byte>, p: nat, kids: seq<Wire>) returns (w: Wire)
    requires p < |data| && data[p] as int == 0x90 + |kids| <= 0x9f && AllWellFormed(kids)
    ensures Encodes(w, data, p, p + 1, kids)
  {
    w := Array(0, kids);
    TagFirst(data, p, p + 1);
  }

  lemma FewPairs(data: seq<byte>, p: nat, kids: seq<Wire>) returns (w: Wire)
    requires p < |data| && AllWellFormed(kids)
    requires |kids| == 2 * ((data[p] as int) - 0x80) && data[p] <= 0x8f
    ensures Encodes(w, data, p, p + 1, kids)
  {
    w := Map(0, kids);
    TagFirst(data, p, p + 1);
  }

  lemma FewIsTree(data: seq<byte>, p: nat, kids: seq<Wire>) returns (w: Wire)
    requires p < |data| && Classify(data[p]) == Few(|kids|) && AllWellFormed(kids)
    ensures Encodes(w, data, p, p + 1, kids)
  {
    if data[p] >= 0x90 {
      w := FewElements(data, p, kids);
    } else {
      w := FewPairs(data, p, kids);
    }
  }

  lemma ManyIsTree(data: seq<byte>, p: nat, kids: seq<Wire>, width: nat, pairs: bool) returns (w: Wire)
    requires p + 1 + width <= |data| && Classify(data[p]) == Many(width, pairs) && AllWellFormed(kids)
    requires |kids| == if pairs then 2 * BeAt(data, p + 1, width) else BeAt(data, p + 1, width)
    ensures Encodes(w, data, p, p + 1 + width, kids)
  {
    TagsOfMany(data[p]);
    FieldWrites(data, p + 1, width);
    w := if pairs then Map(width, kids) else Array(width, kids);
    TagFirst(data, p, p + 1 + width);
  }

  lemma ManyDoesNotWrap(data: seq<byte>, p: nat, width: nat)
    requires p + 1 + width <= |data| && Classify(data[p]) == Many(width, true) && !Wraps(data, p)
    ensures BeAt(data, p + 1, width) * 2 < ADDRESS_SPACE
  {
    TagsOfMany(data[p]);
    FieldWrites(data, p + 1, width);
  }

  lemma KidsAreTree(data: seq<byte>, p: nat, kids: seq<Wire>) returns (w: Wire)
    requires p < |data| && ReadHead(data, p).Kids? && !Wraps(data, p)
    requires |kids| == ReadHead(data, p).count && AllWellFormed(kids)
    ensures p <= ReadHead(data, p).first <= |data| && Encodes(w, data, p, ReadHead(data, p).first, kids)
  {
    w := Plain(0);
    match Classify(data[p])
    case Few(_) => w := FewIsTree(data, p, kids);
    case Many(width, pairs) =>
      if pairs {
        ManyDoesNotWrap(data, p, width);
      }
      w := ManyIsTree(data, p, kids, width, pairs);
    case _ => assert false;
  }

  lemma {:induction false} SkippedIsTree(data: seq<byte>, p: nat, depth: nat, q: nat) returns (w: Wire)
    requires p <= |data| && SkipDepth(data, p, depth) == Reached(q) && !MeetsWrap(data, p, depth)
    ensures WellFormed(w) && depth + Height(w) <= 8 && data[p..q] == Flat(w)
    decreases |data| - p, 0
  {
    var h := ReadHead(data, p);
    if h.Body? {
      w := BodyIsTree(data, p, q);
    } else {
      var kids := SkippedIsForest(data, h.first, h.count, depth + 1, q);
      w := KidsAreTree(data, p, kids);
      JoinSlices(data, p, h.first, q);
    }
  }

  lemma SkippedStep(data: seq<byte>, p: nat, count: nat, depth: nat, q: nat) returns (m: nat)
    requires p <= |data| && count > 0
    requires SkipMany(data, p, count, depth) == Reached(q) && !MeetsWrapIn(data, p, count, depth)
    ensures p < m <= q <= |data| && SkipDepth(data, p, depth) == Reached(m) && !MeetsWrap(data, p, depth)
    ensures SkipMany(data, m, count - 1, depth) == Reached(q) && !MeetsWrapIn(data, m, count - 1, depth)
  {
    m := SkipDepth(data, p, depth).at;
  }

  lemma ForestCons(w: Wire, ws: seq<Wire>, data: seq<byte>, p: nat, m: nat, q: nat, depth: nat) returns (all: seq<Wire>)
    requires WellFormed(w) && AllWellFormed(ws) && depth + Height(w) <= MAX_DEPTH && ForestFits(ws, depth)
    requires p <= m <= q <= |data| && data[p..m] == Flat(w) && data[m..q] == FlatAll(ws)
    ensures |all| == 1 + |ws| && AllWellFormed(all) && data[p..q] == FlatAll(all) && ForestFits(all, depth)
  {
    all := [w] + ws;
    assert all[1..] == ws;
    JoinSlices(data, p, m, q);
  }

  lemma {:induction false} SkippedIsForest(data: seq<byte>, p: nat, count: nat, depth: nat, q: nat)
    returns (ws: seq<Wire>)
    requires p <= |data| && SkipMany(data, p, count, depth) == Reached(q) && !MeetsWrapIn(data, p, count, depth)
    ensures |ws| == count && AllWellFormed(ws) && ForestFits(ws, depth) && data[p..q] == FlatAll(ws)
    decreases |data| - p, 1, count
  {
    if count == 0 {
      ws := [];
    } else {
      var m := SkippedStep(data, p, count, depth, q);
      var w := SkippedIsTree(data, p, depth, m);
      var others := SkippedIsForest(data, m, count - 1, depth, q);
      ws := ForestCons(w, others, data, p, m, q, depth);
    }
  }

  lemma {:induction false} TreesDoNotWrap(w: Wire, data: seq<byte>, p: nat, depth: nat)
    requires WellFormed(w) && At(data, p, Flat(w)) && |data| < ADDRESS_SPACE
    ensures !MeetsWrap(data, p, depth)
    decreases w, 0
  {
    HeadReads(w, data, p);
    HeightOfKids(w, p);
    if HeadOf(w, p).Kids? {
      ChildrenFollow(w, data, p);
      ForestsDoNotWrap(Children(w), data, HeadOf(w, p).first, depth + 1);
    }
  }

  lemma {:induction false} ForestsDoNotWrap(ws: seq<Wire>, data: seq<byte>, p: nat, depth: nat)
    requires AllWellFormed(ws) && At(data, p, FlatAll(ws)) && |data| < ADDRESS_SPACE
    ensures !MeetsWrapIn(data, p, |ws|, depth)
    decreases ws, 1
  {
    if ws != [] {
      AtSplit(data, p, Flat(ws[0]), FlatAll(ws[1..]));
      TreesDoNotWrap(ws[0], data, p, depth);
      SkipTree(ws[0], data, p, depth);
      ForestsDoNotWrap(ws[1..], data, p + |Flat(ws[0])|, depth);
    }
  }

  /** No encoding within the depth cap is a proper prefix of another: what stands
      at one place has one reading. */
  lemma EncodingsArePrefixFree(v: Wire, w: Wire, data: seq<byte>, p: nat)
    requires WellFormed(v) && WellFormed(w) && Height(v) <= 8 && Height(w) <= 8
    requires At(data, p, Flat(v)) && At(data, p, Flat(w)) && |data| < ADDRESS_SPACE
    ensures Flat(v) == Flat(w)
  {
    SkipTree(v, data, p, 0);
    SkipTree(w, data, p, 0);
    AtSlice(data, p, Flat(v));
    AtSlice(data, p, Flat(w));
  }

  /** The bytes from `p` to `q` encode one value within the depth cap. */
  ghost predicate IsEncoding(data: seq<byte>, p: nat, q: nat)
    requires p <= q <= |data|
  {
    exists w :: WellFormed(w) && Height(w) <= 8 && data[p..q] == Flat(w)
  }

  /** The skipper accepts every encoding within the depth cap. What it accepts
      beyond those is exactly what it reached through a wrapped length. */
  lemma SkipIsExact(data: seq<byte>, p: nat, q: nat)
    requires p <= q <= |data| < ADDRESS_SPACE
    ensures IsEncoding(data, p, q) <==> SkipDepth(data, p, 0) == Reached(q) && !MeetsWrap(data, p, 0)
  {
    if IsEncoding(data, p, q) {
      var w :| WellFormed(w) && Height(w) <= 8 && data[p..q] == Flat(w);
      SkipTree(w, data, p, 0);
      TreesDoNotWrap(w, data, p, 0);
    }
    if SkipDepth(data, p, 0) == Reached(q) && !MeetsWrap(data, p, 0) {
      var w := SkippedIsTree(data, p, 0, q);
    }
  }

  lemma WrapIsNoEncoding(data: seq<byte>, p: nat, q: nat)
    requires p <= q <= |data| < ADDRESS_SPACE && p < |data| && Wraps(data, p)
    ensures !IsEncoding(data, p, q)
  {
    SkipIsExact(data, p, q);
  }

  /** An ext 32 said to hold 2^32 - 1 bytes passes for five bytes with nothing
      behind them. */
  lemma WrappedExtIsAccepted(data: seq<byte>, p: nat)
    requires p + 5 <= |data| < ADDRESS_SPACE && data[p] == 0xc9 && BeAt(data, p + 1, LONG) == 0xffff_ffff
    ensures SkipDepth(data, p, 0) == Reached(p + 5) && !IsEncoding(data, p, p + 5)
  {
    WrapIsNoEncoding(data, p, p + 5);
  }

  /** So does a map 32 said to hold 2^31 pairs. */
  lemma WrappedMapIsAccepted(data: seq<byte>, p: nat)
    requires p + 5 <= |data| < ADDRESS_SPACE && data[p] == 0xdf && BeAt(data, p + 1, LONG) == 0x8000_0000
    ensures SkipDepth(data, p, 0) == Reached(p + 5) && !IsEncoding(data, p, p + 5)
  {
    WrapIsNoEncoding(data, p, p + 5);
    assert ReadHead(data, p) == Kids(p + 5, 0, true);
  }

  lemma FourByteField(s: seq<byte>, v: nat)
    requires |s| == 5 && v == 0x100_0000 * (s[1] as int) + 0x1_0000 * (s[2] as int) + 0x100 * (s[3] as int) + s[4]
    ensures BeAt(s, 1, LONG) == v
  {
    assert BeAt(s, 1, 1) == s[1];
    assert BeAt(s, 1, 2) == 0x100 * (s[1] as int) + s[2];
    assert BeAt(s, 1, 3) == 0x1_0000 * (s[1] as int) + 0x100 * (s[2] as int) + s[3];
  }

  /** Both are within reach: five-byte inputs that are no encoding of anything
      and are skipped whole. */
  lemma WrappedFragments() returns (ext: seq<byte>, pairs: seq<byte>)
    ensures ext == [0xc9, 0xff, 0xff, 0xff, 0xff] && pairs == [0xdf, 0x80, 0, 0, 0]
    ensures SkipDepth(ext, 0, 0) == Reached(5) && !IsEncoding(ext, 0, 5)
    ensures SkipDepth(pairs, 0, 0) == Reached(5) && !IsEncoding(pairs, 0, 5)
  {
    ext, pairs := [0xc9, 0xff, 0xff, 0xff, 0xff], [0xdf, 0x80, 0, 0, 0];
    FourByteField(ext, 0xffff_ffff);
    WrappedExtIsAccepted(ext, 0);
    FourByteField(pairs, 0x8000_0000);
    WrappedMapIsAccepted(pairs, 0);
  }
}
