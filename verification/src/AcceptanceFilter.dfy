/** Configuration of hardware acceptance filters: one filter per subscription, merged until they fit the hardware. */
module AcceptanceFilter {
  import opened Transfer
  import opened Options
  import opened Arithmetic
  import opened Can
  import opened Frames
  import opened Words

  datatype FilterConfig = FilterConfig(id: bv32, mask: bv32)

  /** A filter lets an identifier pass if it agrees with the filter's on all bits of the mask. */
  predicate Matches(c: FilterConfig, word: bv32) { Masked(word, c.mask) == Masked(c.id, c.mask) }

  predicate Accepts(configs: seq<FilterConfig>, word: bv32)
  {
    exists i | 0 <= i < |configs| :: Matches(configs[i], word)
  }

  function Merge(a: FilterConfig, b: FilterConfig): FilterConfig
  {
    var mask := a.mask & b.mask & !(a.id ^ b.id);
    FilterConfig(a.id & mask, mask)
  }

  lemma MergeCoversFirst(a: FilterConfig, b: FilterConfig, word: bv32)
    requires Matches(a, word)
    ensures Matches(Merge(a, b), word)
  {
  }

  lemma MergeCoversSecond(a: FilterConfig, b: FilterConfig, word: bv32)
    requires Matches(b, word)
    ensures Matches(Merge(a, b), word)
  {
  }

  /** `c` lets everything pass that `d` does. */
  ghost predicate Covers(c: FilterConfig, d: FilterConfig) { forall word :: Matches(d, word) ==> Matches(c, word) }

  /** The identifier that differs from the filter's on every bit the filter ignores. */
  function Farthest(d: FilterConfig): bv32 { d.id ^ !d.mask }

  lemma OwnIdentifiersMatch(d: FilterConfig)
    ensures Matches(d, d.id) && Matches(d, Farthest(d))
  {
  }

  lemma MatchTellsMask(c: FilterConfig, d: FilterConfig)
    requires Matches(c, d.id) && Matches(c, Farthest(d))
    ensures c.mask & d.mask == c.mask && c.id & c.mask == d.id & c.mask
  {
  }

  /** Covering is a matter of fewer mask bits and equal identifier bits. */
  lemma CoversInBits(c: FilterConfig, d: FilterConfig)
    requires Covers(c, d)
    ensures c.mask & d.mask == c.mask && c.id & c.mask == d.id & c.mask
  {
    hide Matches, Farthest;
    OwnIdentifiersMatch(d);
    MatchTellsMask(c, d);
  }

  lemma NarrowerStillMatches(c: FilterConfig, a: FilterConfig, b: FilterConfig, word: bv32)
    requires c.mask & a.mask == c.mask && c.mask & b.mask == c.mask
    requires c.id & c.mask == a.id & c.mask && c.id & c.mask == b.id & c.mask
    requires Matches(Merge(a, b), word)
    ensures Matches(c, word)
  {
  }

  /** A merge is as tight as a single filter can be: whatever covers both filters covers their merge. */
  lemma MergeIsTightest(a: FilterConfig, b: FilterConfig, c: FilterConfig)
    requires Covers(c, a) && Covers(c, b)
    ensures Covers(c, Merge(a, b))
  {
    CoversInBits(c, a);
    CoversInBits(c, b);
    forall word | Matches(Merge(a, b), word)
      ensures Matches(c, word)
    {
      NarrowerStillMatches(c, a, b, word);
    }
  }

  // ----- Filters built from the node's subscriptions -----

  type MessageType = n: int | 0 <= n < 0x1_0000

  function MessageFilter(dataTypeId: MessageType): FilterConfig
  {
    FilterConfig(Join(0x80, BitsOf(dataTypeId / 256), BitsOf(dataTypeId % 256), 0), Join(0xE0, 0xFF, 0xFF, 0x80))
  }

  function ServiceFilter(node: NodeId): FilterConfig
  {
    FilterConfig(Join(0x80, 0, BitsOf(node), 0x80), Join(0xE0, 0, 0x7F, 0x80))
  }

  function AnonymousFilter(): FilterConfig
  {
    FilterConfig(Join(0x80, 0, 0, 0), Join(0xE0, 0, 0, 0xFF))
  }

  function MessageFilters(types: seq<MessageType>): seq<FilterConfig>
  {
    seq(|types|, i requires 0 <= i < |types| => MessageFilter(types[i]))
  }

  function Loaded(anonymous: bool, node: NodeId, types: seq<MessageType>): seq<FilterConfig>
  {
    (if anonymous then [AnonymousFilter()] else []) + [ServiceFilter(node)] + MessageFilters(types)
  }

  lemma MatchesBytewise(i3: Byte, i2: Byte, i1: Byte, i0: Byte, m3: Byte, m2: Byte, m1: Byte, m0: Byte,
                        b3: Byte, b2: Byte, b1: Byte, b0: Byte)
    ensures Matches(FilterConfig(Join(i3, i2, i1, i0), Join(m3, m2, m1, m0)), Join(b3, b2, b1, b0)) <==>
      && MaskedByte(b3, m3) == MaskedByte(i3, m3) && MaskedByte(b2, m2) == MaskedByte(i2, m2)
      && MaskedByte(b1, m1) == MaskedByte(i1, m1) && MaskedByte(b0, m0) == MaskedByte(i0, m0)
  {
    hide Join, Split, Masked, MaskedByte;
    MaskingIsBytewise(b3, b2, b1, b0, m3, m2, m1, m0);
    MaskingIsBytewise(i3, i2, i1, i0, m3, m2, m1, m0);
    SplitOfJoin(MaskedByte(b3, m3), MaskedByte(b2, m2), MaskedByte(b1, m1), MaskedByte(b0, m0));
    SplitOfJoin(MaskedByte(i3, m3), MaskedByte(i2, m2), MaskedByte(i1, m1), MaskedByte(i0, m0));
  }

  lemma WordOfBytes(id: CanId, b3: int, b2: int, b1: int, b0: int)
    requires 0 <= b3 < 256 && 0 <= b2 < 256 && 0 <= b1 < 256 && 0 <= b0 < 256
    requires id == b3 * 0x100_0000 + b2 * 0x1_0000 + b1 * 0x100 + b0
    ensures Word(id) == Join(BitsOf(b3), BitsOf(b2), BitsOf(b1), BitsOf(b0))
  {
    hide BitsOf, Join;
    assert id % 256 == b0;
    assert id / 0x100 == b3 * 0x1_0000 + b2 * 0x100 + b1;
    assert id / 0x1_0000 == b3 * 0x100 + b2;
    assert id / 0x100_0000 == b3;
  }

  /** The four bytes of the identifier of a message frame. */
  lemma WordOfMessage(priority: nat, typeBits: nat, src: nat)
    requires priority < 32 && typeBits < 0x1_0000 && src < 128
    ensures FLAG_EFF + MessageId(priority, typeBits, src) < 0x1_0000_0000
    ensures Word(FLAG_EFF + MessageId(priority, typeBits, src)) ==
      Join(BitsOf(128 + priority), BitsOf(typeBits / 256), BitsOf(typeBits % 256), BitsOf(src))
  {
    hide Word;
    WordOfBytes(FLAG_EFF + MessageId(priority, typeBits, src), 128 + priority, typeBits / 256, typeBits % 256, src);
  }

  lemma WordOfService(priority: nat, dataTypeId: nat, request: nat, dst: nat, src: nat)
    requires priority < 32 && dataTypeId < 0x100 && request < 2 && dst < 128 && src < 128
    ensures FLAG_EFF + ServiceId(priority, dataTypeId, request, dst, src) < 0x1_0000_0000
    ensures Word(FLAG_EFF + ServiceId(priority, dataTypeId, request, dst, src)) ==
      Join(BitsOf(128 + priority), BitsOf(dataTypeId), BitsOf(dst + 128 * request), BitsOf(128 + src))
  {
    hide Word;
    WordOfBytes(FLAG_EFF + ServiceId(priority, dataTypeId, request, dst, src),
                128 + priority, dataTypeId, dst + 128 * request, 128 + src);
  }

  lemma FullMask(b: Byte)
    ensures MaskedByte(b, 0xFF) == b && MaskedByte(b, 0) == 0
  {
  }

  lemma HeadPasses(priority: nat)
    requires priority < 32
    ensures MaskedByte(BitsOf(128 + priority), 0xE0) == MaskedByte(0x80, 0xE0)
  {
    TopBits(priority);
  }

  lemma ServiceBit(n: nat)
    requires n < 128
    ensures MaskedByte(BitsOf(n), 0x80) == 0 && MaskedByte(BitsOf(128 + n), 0x80) == 0x80
    ensures MaskedByte(BitsOf(n), 0x7F) == BitsOf(n) && MaskedByte(BitsOf(128 + n), 0x7F) == BitsOf(n)
  {
    hide BitsOf;
    MarkedBits(n);
    MarkedMasks(BitsOf(n));
  }

  lemma MarkedMasks(b: Byte)
    requires b & 0x80 == 0
    ensures MaskedByte(b, 0x80) == 0 && MaskedByte(Marked(b), 0x80) == 0x80
    ensures MaskedByte(b, 0x7F) == b && MaskedByte(Marked(b), 0x7F) == b
  {
  }

  lemma MaskedZero()
    ensures MaskedByte(0, 0x80) == 0 && MaskedByte(0x80, 0x80) == 0x80 && MaskedByte(0, 0xFF) == 0
  {
  }

  /** A message filter passes a message exactly if its type bits agree, and no service frame. */
  lemma MessageFilterOnMessage(d: MessageType, priority: nat, typeBits: nat, src: nat)
    requires priority < 32 && typeBits < 0x1_0000 && src < 128
    ensures FLAG_EFF + MessageId(priority, typeBits, src) < 0x1_0000_0000
    ensures Matches(MessageFilter(d), Word(FLAG_EFF + MessageId(priority, typeBits, src))) <==> typeBits == d
  {
    hide Matches, Word, BitsOf, Join, MaskedByte;
    WordOfMessage(priority, typeBits, src);
    MatchesBytewise(0x80, BitsOf(d / 256), BitsOf(d % 256), 0, 0xE0, 0xFF, 0xFF, 0x80,
                    BitsOf(128 + priority), BitsOf(typeBits / 256), BitsOf(typeBits % 256), BitsOf(src));
    HeadPasses(priority);
    ServiceBit(src);
    FullMask(BitsOf(d / 256));
    FullMask(BitsOf(d % 256));
    FullMask(BitsOf(typeBits / 256));
    FullMask(BitsOf(typeBits % 256));
    BitsAreInjective(d / 256, typeBits / 256);
    BitsAreInjective(d % 256, typeBits % 256);
    MaskedZero();
  }

  lemma MessageFilterOnService(d: MessageType, priority: nat, dataTypeId: nat, request: nat, dst: nat, src: nat)
    requires priority < 32 && dataTypeId < 0x100 && request < 2 && dst < 128 && src < 128
    ensures FLAG_EFF + ServiceId(priority, dataTypeId, request, dst, src) < 0x1_0000_0000
    ensures !Matches(MessageFilter(d), Word(FLAG_EFF + ServiceId(priority, dataTypeId, request, dst, src)))
  {
    hide Matches, Word, BitsOf, Join, MaskedByte;
    WordOfService(priority, dataTypeId, request, dst, src);
    MatchesBytewise(0x80, BitsOf(d / 256), BitsOf(d % 256), 0, 0xE0, 0xFF, 0xFF, 0x80,
                    BitsOf(128 + priority), BitsOf(dataTypeId), BitsOf(dst + 128 * request), BitsOf(128 + src));
    ServiceBit(src);
    MaskedZero();
  }

  lemma ServiceFilterOnMessage(node: NodeId, priority: nat, typeBits: nat, src: nat)
    requires priority < 32 && typeBits < 0x1_0000 && src < 128
    ensures FLAG_EFF + MessageId(priority, typeBits, src) < 0x1_0000_0000
    ensures !Matches(ServiceFilter(node), Word(FLAG_EFF + MessageId(priority, typeBits, src)))
  {
    hide Matches, Word, BitsOf, Join, MaskedByte;
    WordOfMessage(priority, typeBits, src);
    MatchesBytewise(0x80, 0, BitsOf(node), 0x80, 0xE0, 0, 0x7F, 0x80,
                    BitsOf(128 + priority), BitsOf(typeBits / 256), BitsOf(typeBits % 256), BitsOf(src));
    ServiceBit(src);
    MaskedZero();
  }

  lemma ServiceFilterOnService(node: NodeId, priority: nat, dataTypeId: nat, request: nat, dst: nat, src: nat)
    requires priority < 32 && dataTypeId < 0x100 && request < 2 && dst < 128 && src < 128 && IsValidNode(node)
    ensures FLAG_EFF + ServiceId(priority, dataTypeId, request, dst, src) < 0x1_0000_0000
    ensures Matches(ServiceFilter(node), Word(FLAG_EFF + ServiceId(priority, dataTypeId, request, dst, src))) <==>
      dst == node
  {
    hide Matches, Word, BitsOf, Join, MaskedByte;
    WordOfService(priority, dataTypeId, request, dst, src);
    MatchesBytewise(0x80, 0, BitsOf(node), 0x80, 0xE0, 0, 0x7F, 0x80,
                    BitsOf(128 + priority), BitsOf(dataTypeId), BitsOf(dst + 128 * request), BitsOf(128 + src));
    HeadPasses(priority);
    FullMask(BitsOf(dataTypeId));
    FullMask(0);
    ServiceBit(src);
    ServiceBit(dst);
    ServiceBit(node);
    BitsAreInjective(dst, node);
    MaskedZero();
  }

  lemma AnonymousFilterOnMessage(priority: nat, typeBits: nat, src: nat)
    requires priority < 32 && typeBits < 0x1_0000 && src < 128
    ensures FLAG_EFF + MessageId(priority, typeBits, src) < 0x1_0000_0000
    ensures Matches(AnonymousFilter(), Word(FLAG_EFF + MessageId(priority, typeBits, src))) <==> src == 0
  {
    hide Matches, Word, BitsOf, Join, MaskedByte;
    WordOfMessage(priority, typeBits, src);
    MatchesBytewise(0x80, 0, 0, 0, 0xE0, 0, 0, 0xFF,
                    BitsOf(128 + priority), BitsOf(typeBits / 256), BitsOf(typeBits % 256), BitsOf(src));
    HeadPasses(priority);
    FullMask(BitsOf(typeBits / 256));
    FullMask(BitsOf(typeBits % 256));
    FullMask(BitsOf(src));
    FullMask(0);
    BitsAreInjective(src, 0);
    BitsOfZero();
  }

  lemma BitsOfZero()
    ensures BitsOf(0) == 0
  {
  }

  lemma AnonymousFilterOnService(priority: nat, dataTypeId: nat, request: nat, dst: nat, src: nat)
    requires priority < 32 && dataTypeId < 0x100 && request < 2 && dst < 128 && src < 128
    ensures FLAG_EFF + ServiceId(priority, dataTypeId, request, dst, src) < 0x1_0000_0000
    ensures !Matches(AnonymousFilter(), Word(FLAG_EFF + ServiceId(priority, dataTypeId, request, dst, src)))
  {
    hide Matches, Word, BitsOf, Join, MaskedByte;
    WordOfService(priority, dataTypeId, request, dst, src);
    MatchesBytewise(0x80, 0, 0, 0, 0xE0, 0, 0, 0xFF,
                    BitsOf(128 + priority), BitsOf(dataTypeId), BitsOf(dst + 128 * request), BitsOf(128 + src));
    FullMask(BitsOf(128 + src));
    FullMask(0);
    BitsAreInjective(128 + src, 0);
    BitsOfZero();
  }

  /** The identifier word of a compiled frame. */
  function FrameWord(f: Frame): bv32
    requires IsValid(f)
  {
    Word(Compile(f).value.id)
  }

  /** What the node has subscribed to: its message types, services addressed to it and perhaps anonymous messages. */
  predicate IsRelevant(f: Frame, anonymous: bool, node: NodeId, types: seq<MessageType>)
  {
    if IsBroadcast(f.src) then anonymous
    else if f.transferType == MessageBroadcast then f.dataTypeId in types
    else f.dst == node
  }

  /** How each kind of filter treats a valid frame; the type bits of an anonymous message include a discriminator. */
  ghost predicate FilterVerdicts(f: Frame, node: NodeId, d: MessageType)
    requires IsValid(f)
  {
    && (Matches(AnonymousFilter(), FrameWord(f)) <==> IsBroadcast(f.src))
    && (Matches(ServiceFilter(node), FrameWord(f)) <==> f.transferType != MessageBroadcast && f.dst == node)
    && (!IsBroadcast(f.src) ==>
       (Matches(MessageFilter(d), FrameWord(f)) <==> f.transferType == MessageBroadcast && f.dataTypeId == d))
  }

  lemma FiltersOnFrame(f: Frame, node: NodeId, d: MessageType)
    requires IsValid(f) && IsValidNode(node)
    ensures FilterVerdicts(f, node, d)
  {
    hide Matches, Word, MessageFilter, ServiceFilter, AnonymousFilter, MessageId, ServiceId, Discriminator, Or;
    var discriminator := Discriminator(CompiledData(f));
    if f.transferType == MessageBroadcast {
      var bits := MessageTypeBits(f.dataTypeId, IsBroadcast(f.src), discriminator);
      MessageTypeBitsFit(f.dataTypeId, IsBroadcast(f.src), discriminator);
      MessageFilterOnMessage(d, f.priority, bits, f.src);
      ServiceFilterOnMessage(node, f.priority, bits, f.src);
      AnonymousFilterOnMessage(f.priority, bits, f.src);
    } else {
      var request := if f.transferType == ServiceRequest then 1 else 0;
      MessageFilterOnService(d, f.priority, f.dataTypeId, request, f.dst, f.src);
      ServiceFilterOnService(node, f.priority, f.dataTypeId, request, f.dst, f.src);
      AnonymousFilterOnService(f.priority, f.dataTypeId, request, f.dst, f.src);
    }
  }

  /** Before merging, a frame with a source passes exactly if it is relevant; a relevant anonymous one passes too. */
  lemma LoadedFiltersAreExact(f: Frame, anonymous: bool, node: NodeId, types: seq<MessageType>)
    requires IsValid(f) && IsValidNode(node)
    ensures IsRelevant(f, anonymous, node, types) ==> Accepts(Loaded(anonymous, node, types), FrameWord(f))
    ensures !IsBroadcast(f.src) && Accepts(Loaded(anonymous, node, types), FrameWord(f)) ==>
      IsRelevant(f, anonymous, node, types)
  {
    hide Matches, FrameWord, MessageFilter, ServiceFilter, AnonymousFilter, IsValid;
    var configs := Loaded(anonymous, node, types);
    var base := if anonymous then 2 else 1;
    forall i | 0 <= i < |types|
      ensures configs[base + i] == MessageFilter(types[i])
    {
    }
    forall d: MessageType
      ensures FilterVerdicts(f, node, d)
    {
      FiltersOnFrame(f, node, d);
    }
    assert FilterVerdicts(f, node, 0);
    if IsRelevant(f, anonymous, node, types) {
      if IsBroadcast(f.src) {
        assert Matches(configs[0], FrameWord(f));
      } else if f.transferType == MessageBroadcast {
        var i :| 0 <= i < |types| && types[i] == f.dataTypeId;
        assert FilterVerdicts(f, node, types[i]);
        assert Matches(configs[base + i], FrameWord(f));
      } else {
        assert Matches(configs[base - 1], FrameWord(f));
      }
    }
    if !IsBroadcast(f.src) && Accepts(configs, FrameWord(f)) {
      var k :| 0 <= k < |configs| && Matches(configs[k], FrameWord(f));
      if k >= base {
        assert configs[base + (k - base)] == MessageFilter(types[k - base]);
        assert FilterVerdicts(f, node, types[k - base]);
      }
    }
  }

  // ----- Merging down to the number of hardware filters -----

  function Rank(configs: seq<FilterConfig>, i: nat, j: nat): nat
    requires i < |configs| && j < |configs|
  {
    Ones(Merge(configs[i], configs[j]).mask)
  }

  /** The pairs the search looks at: the second index starts after the first one, reduced to eight bits. */
  predicate Considered(n: nat, i: nat, j: nat)
  {
    i + 1 < n && (i + 1) % 256 <= j < n
  }

  predicate Earlier(p: nat, q: nat, i: nat, j: nat) { p < i || (p == i && q < j) }

  /** The first pair of largest positive rank among those considered, or the pair (0, 0) if no rank is positive. */
  ghost predicate IsBest(configs: seq<FilterConfig>, i: nat, j: nat)
  {
    && i < |configs| && j < |configs|
    && if Considered(|configs|, i, j) && Rank(configs, i, j) > 0 then
         forall p: nat, q: nat | Considered(|configs|, p, q) ::
           && Rank(configs, p, q) <= Rank(configs, i, j)
           && (Earlier(p, q, i, j) ==> Rank(configs, p, q) < Rank(configs, i, j))
       else
         i == 0 && j == 0 && forall p: nat, q: nat | Considered(|configs|, p, q) :: Rank(configs, p, q) == 0
  }

  function FirstIndex(configs: seq<FilterConfig>, c: FilterConfig): (i: nat)
    requires c in configs
    ensures i < |configs| && configs[i] == c && c !in configs[..i]
  {
    if configs[0] == c then 0 else 1 + FirstIndex(configs[1..], c)
  }

  function WithoutFirst(configs: seq<FilterConfig>, c: FilterConfig): seq<FilterConfig>
    requires c in configs
  {
    var i := FirstIndex(configs, c);
    configs[..i] + configs[i + 1..]
  }

  function MergeStep(configs: seq<FilterConfig>, i: nat, j: nat): (r: seq<FilterConfig>)
    requires i < |configs| && j < |configs|
    ensures |r| + 1 == |configs|
  {
    var merged := configs[j := Merge(configs[i], configs[j])];
    WithoutFirst(merged, merged[i])
  }

  /** Removing an element keeps what the others accept. */
  lemma RemainderAccepts(configs: seq<FilterConfig>, c: FilterConfig, k: nat, word: bv32)
    requires c in configs && k < |configs| && k != FirstIndex(configs, c) && Matches(configs[k], word)
    ensures Accepts(WithoutFirst(configs, c), word)
  {
    hide Matches;
    var i := FirstIndex(configs, c);
    assert WithoutFirst(configs, c)[if k < i then k else k - 1] == configs[k];
  }

  /** Merging two different positions loses no frame. */
  lemma MergeStepCovers(configs: seq<FilterConfig>, i: nat, j: nat, word: bv32)
    requires i < |configs| && j < |configs| && i != j && Accepts(configs, word)
    ensures Accepts(MergeStep(configs, i, j), word)
  {
    hide Matches, Merge;
    var m := Merge(configs[i], configs[j]);
    var merged := configs[j := m];
    var first := FirstIndex(merged, merged[i]);
    var k :| 0 <= k < |configs| && Matches(configs[k], word);
    if configs[k] == configs[i] {
      MergeCoversFirst(configs[i], configs[j], word);
    } else if k == j {
      MergeCoversSecond(configs[i], configs[j], word);
    }
    if configs[k] == configs[i] || k == j {
      RemainderAccepts(merged, merged[i], if first == j then i else j, word);
    } else {
      RemainderAccepts(merged, merged[i], k, word);
    }
  }

  const TAG_MASK: bv32 := 0xE000_0000
  const TAG: bv32 := 0x8000_0000

  /** Every loaded filter insists on an extended data frame. */
  predicate IsTagged(c: FilterConfig) { Masked(c.mask, TAG_MASK) == TAG_MASK && Masked(c.id, TAG_MASK) == TAG }

  lemma MergeIsTagged(a: FilterConfig, b: FilterConfig)
    requires IsTagged(a) && IsTagged(b)
    ensures IsTagged(Merge(a, b)) && Merge(a, b).mask != 0
  {
  }

  lemma JoinIsTagged(i2: Byte, i1: Byte, i0: Byte, m2: Byte, m1: Byte, m0: Byte)
    ensures IsTagged(FilterConfig(Join(0x80, i2, i1, i0), Join(0xE0, m2, m1, m0)))
  {
  }

  ghost predicate AllTagged(configs: seq<FilterConfig>)
  {
    forall c | c in configs :: IsTagged(c)
  }

  lemma LoadedIsTagged(anonymous: bool, node: NodeId, types: seq<MessageType>)
    ensures AllTagged(Loaded(anonymous, node, types))
  {
    hide IsTagged, Join;
    var configs := Loaded(anonymous, node, types);
    forall c | c in configs
      ensures IsTagged(c)
    {
      if c == AnonymousFilter() {
        JoinIsTagged(0, 0, 0, 0, 0, 0xFF);
      } else if c == ServiceFilter(node) {
        JoinIsTagged(0, BitsOf(node), 0x80, 0, 0x7F, 0x80);
      } else {
        var d :| d in types && c == MessageFilter(d);
        JoinIsTagged(BitsOf(d / 256), BitsOf(d % 256), 0, 0xFF, 0xFF, 0x80);
      }
    }
  }

  lemma MergeStepIsTagged(configs: seq<FilterConfig>, i: nat, j: nat)
    requires i < |configs| && j < |configs| && AllTagged(configs)
    ensures AllTagged(MergeStep(configs, i, j))
  {
    hide IsTagged, Merge;
    MergeIsTagged(configs[i], configs[j]);
  }

  /** Up to 256 tagged filters, the search finds two different positions. */
  lemma BestPairIsProper(configs: seq<FilterConfig>, i: nat, j: nat)
    requires 2 <= |configs| <= 256 && AllTagged(configs) && IsBest(configs, i, j)
    ensures i < j < |configs|
  {
    hide IsTagged, Merge, Ones;
    assert Considered(|configs|, 0, 1);
    MergeIsTagged(configs[0], configs[1]);
    NonzeroHasOnes(Merge(configs[0], configs[1]).mask);
  }

  /** The search's progress: all pairs before (i, j) have been looked at. */
  ghost predicate IsBestSoFar(configs: seq<FilterConfig>, i: nat, j: nat, bestI: nat, bestJ: nat, bestRank: nat)
    requires bestI < |configs| && bestJ < |configs|
  {
    if bestRank > 0 then
      && Considered(|configs|, bestI, bestJ) && Earlier(bestI, bestJ, i, j) && bestRank == Rank(configs, bestI, bestJ)
      && forall p: nat, q: nat | Considered(|configs|, p, q) && Earlier(p, q, i, j) ::
           Rank(configs, p, q) <= bestRank && (Earlier(p, q, bestI, bestJ) ==> Rank(configs, p, q) < bestRank)
    else
      && bestI == 0 && bestJ == 0
      && forall p: nat, q: nat | Considered(|configs|, p, q) && Earlier(p, q, i, j) :: Rank(configs, p, q) == 0
  }

  ghost predicate IsOneMerge(before: seq<FilterConfig>, after: seq<FilterConfig>)
  {
    exists i: nat, j: nat :: i < |before| && j < |before| && IsBest(before, i, j) && after == MergeStep(before, i, j)
  }

  lemma MergePairIsOneMerge(configs: seq<FilterConfig>, i: nat, j: nat)
    requires IsBest(configs, i, j)
    ensures IsOneMerge(configs, MergeStep(configs, i, j))
  {
  }

  /** `n` turns of the merging loop lead from one configuration to the other. */
  ghost predicate MergesTo(before: seq<FilterConfig>, after: seq<FilterConfig>, n: nat)
    decreases n
  {
    if n == 0 then before == after
    else exists mid :: MergesTo(before, mid, n - 1) && IsOneMerge(mid, after)
  }

  lemma OneMergeCovers(before: seq<FilterConfig>, after: seq<FilterConfig>)
    requires IsOneMerge(before, after) && 2 <= |before| <= 256 && AllTagged(before)
    ensures |after| + 1 == |before| && AllTagged(after) && forall word | Accepts(before, word) :: Accepts(after, word)
  {
    hide IsBest, IsTagged, Accepts, AllTagged;
    var i: nat, j: nat :| i < |before| && j < |before| && IsBest(before, i, j) && after == MergeStep(before, i, j);
    BestPairIsProper(before, i, j);
    MergeStepIsTagged(before, i, j);
    forall word | Accepts(before, word)
      ensures Accepts(after, word)
    {
      MergeStepCovers(before, i, j, word);
    }
  }

  /** Any number of merges of up to 256 filters of this node's making loses no identifier. */
  lemma {:induction false} MergesCover(before: seq<FilterConfig>, after: seq<FilterConfig>, n: nat)
    requires MergesTo(before, after, n) && n < |before| <= 256 && AllTagged(before)
    ensures |after| + n == |before| && AllTagged(after) && forall word | Accepts(before, word) :: Accepts(after, word)
    decreases n
  {
    hide IsOneMerge, AllTagged, Accepts;
    if n > 0 {
      var mid :| MergesTo(before, mid, n - 1) && IsOneMerge(mid, after);
      MergesCover(before, mid, n - 1);
      OneMergeCovers(mid, after);
    }
  }

  // ----- More than 256 filters -----

  const MESSAGE_MASK: bv32 := Join(0xE0, 0xFF, 0xFF, 0x80)

  lemma OwnMergeOfMessage(d: MessageType)
    ensures Merge(MessageFilter(d), MessageFilter(d)) == MessageFilter(d)
  {
    hide BitsOf;
    OwnMergeOfBytes(BitsOf(d / 256), BitsOf(d % 256));
  }

  lemma OwnMergeOfBytes(b2: Byte, b1: Byte)
    ensures
      var c := FilterConfig(Join(0x80, b2, b1, 0), Join(0xE0, 0xFF, 0xFF, 0x80));
      Merge(c, c) == c
  {
  }

  lemma MaskOfOtherMessage(b2: Byte, b1: Byte, c2: Byte, c1: Byte)
    requires b2 != c2 || b1 != c1
    ensures
      var b, c := FilterConfig(Join(0x80, b2, b1, 0), MESSAGE_MASK), FilterConfig(Join(0x80, c2, c1, 0), MESSAGE_MASK);
      var m := Merge(b, c).mask;
      Within(m, MESSAGE_MASK) && m != MESSAGE_MASK
  {
  }

  lemma MaskOfOtherKind(a: FilterConfig, b: FilterConfig)
    requires b.mask == MESSAGE_MASK || b.mask == Join(0xE0, 0, 0x7F, 0x80)
    requires a.mask == Join(0xE0, 0, 0x7F, 0x80) || a.mask == Join(0xE0, 0, 0, 0xFF)
    ensures Within(Merge(a, b).mask, MESSAGE_MASK) && Merge(a, b).mask != MESSAGE_MASK
  {
  }

  predicate AreDistinct(types: seq<MessageType>)
  {
    forall i, j | 0 <= i < j < |types| :: types[i] != types[j]
  }

  lemma DifferentMessagesRankLower(d: MessageType, e: MessageType)
    requires d != e
    ensures Ones(Merge(MessageFilter(d), MessageFilter(e)).mask) < Ones(MESSAGE_MASK)
  {
    hide BitsOf, Ones, Merge, Within, Join;
    BitsAreInjective(d / 256, e / 256);
    BitsAreInjective(d % 256, e % 256);
    MaskOfOtherMessage(BitsOf(d / 256), BitsOf(d % 256), BitsOf(e / 256), BitsOf(e % 256));
    OnesAreMonotone(Merge(MessageFilter(d), MessageFilter(e)).mask, MESSAGE_MASK);
  }

  lemma OtherKindRanksLower(a: FilterConfig, b: FilterConfig)
    requires b.mask == MESSAGE_MASK || b.mask == Join(0xE0, 0, 0x7F, 0x80)
    requires a.mask == Join(0xE0, 0, 0x7F, 0x80) || a.mask == Join(0xE0, 0, 0, 0xFF)
    ensures Ones(Merge(a, b).mask) < Ones(MESSAGE_MASK)
  {
    hide Ones, Merge, Within, Join;
    MaskOfOtherKind(a, b);
    OnesAreMonotone(Merge(a, b).mask, MESSAGE_MASK);
  }

  lemma MergedMaskIsSymmetric(a: FilterConfig, b: FilterConfig)
    ensures Merge(a, b).mask == Merge(b, a).mask
  {
  }

  function SpecialFilters(anonymous: bool): nat { if anonymous then 2 else 1 }

  /** Which filter is where. */
  lemma LoadedAt(anonymous: bool, node: NodeId, types: seq<MessageType>, k: nat)
    requires k < |Loaded(anonymous, node, types)|
    ensures |Loaded(anonymous, node, types)| == SpecialFilters(anonymous) + |types|
    ensures
      var base := SpecialFilters(anonymous);
      Loaded(anonymous, node, types)[k] ==
        if k >= base then MessageFilter(types[k - base])
        else if k + 1 == base then ServiceFilter(node)
        else AnonymousFilter()
  {
    hide MessageFilter, ServiceFilter, AnonymousFilter;
  }

  /** The merge of two different filters keeps fewer mask bits than a message filter merged with itself. */
  lemma OtherPairsRankLower(anonymous: bool, node: NodeId, types: seq<MessageType>, p: nat, q: nat)
    requires AreDistinct(types) && p < q < |Loaded(anonymous, node, types)|
    ensures Rank(Loaded(anonymous, node, types), p, q) < Ones(MESSAGE_MASK)
    ensures Rank(Loaded(anonymous, node, types), q, p) < Ones(MESSAGE_MASK)
  {
    hide Ones, Merge, Join, BitsOf, Loaded;
    var configs := Loaded(anonymous, node, types);
    var base := SpecialFilters(anonymous);
    LoadedAt(anonymous, node, types, p);
    LoadedAt(anonymous, node, types, q);
    MergedMaskIsSymmetric(configs[p], configs[q]);
    if p < base {
      OtherKindRanksLower(configs[p], configs[q]);
    } else {
      DifferentMessagesRankLower(types[p - base], types[q - base]);
    }
  }

  /** Beyond 256 filters the eight-bit start index makes the search pair a message filter with itself. */
  lemma WrappedSearchFindsOnePosition(anonymous: bool, node: NodeId, types: seq<MessageType>, i: nat, j: nat)
    requires AreDistinct(types) && |Loaded(anonymous, node, types)| > 256
    requires IsBest(Loaded(anonymous, node, types), i, j)
    ensures 255 <= i == j
  {
    hide Ones, Merge, Loaded, MessageFilter;
    var configs := Loaded(anonymous, node, types);
    LoadedAt(anonymous, node, types, 255);
    var d := types[255 - SpecialFilters(anonymous)];
    OwnMergeOfMessage(d);
    assert MessageFilter(d).mask == MESSAGE_MASK by { MessageFilterHasMessageMask(d); }
    NonzeroHasOnes(MESSAGE_MASK);
    assert Considered(|configs|, 255, 255);
    if i < j {
      OtherPairsRankLower(anonymous, node, types, i, j);
    } else if j < i {
      OtherPairsRankLower(anonymous, node, types, j, i);
    }
  }

  lemma MessageFilterHasMessageMask(d: MessageType)
    ensures MessageFilter(d).mask == MESSAGE_MASK && MESSAGE_MASK != 0
  {
  }

  /** A single-frame message of type `d` from node 1. */
  function Probe(d: MessageType): (f: Frame)
    ensures IsValid(f) && f.dataTypeId == d && f.transferType == MessageBroadcast && !IsBroadcast(f.src)
  {
    Frame(0, MessageBroadcast, d, 1, BROADCAST_NODE, 0, true, true, false, [])
  }

  lemma LoadedIsDistinct(anonymous: bool, node: NodeId, types: seq<MessageType>, i: nat, k: nat)
    requires AreDistinct(types) && IsValidNode(node)
    requires SpecialFilters(anonymous) <= i < |Loaded(anonymous, node, types)|
    requires k < |Loaded(anonymous, node, types)| && k != i
    ensures Loaded(anonymous, node, types)[k] != Loaded(anonymous, node, types)[i]
  {
    hide Loaded, Matches, FrameWord, MessageFilter, ServiceFilter, AnonymousFilter, IsValid, Probe;
    var base := SpecialFilters(anonymous);
    LoadedAt(anonymous, node, types, i);
    LoadedAt(anonymous, node, types, k);
    var d := types[i - base];
    FiltersOnFrame(Probe(d), node, d);
    if k >= base {
      FiltersOnFrame(Probe(d), node, types[k - base]);
    }
  }

  function WithoutType(types: seq<MessageType>, t: nat): seq<MessageType>
    requires t < |types|
  {
    types[..t] + types[t + 1..]
  }

  /** Without one of its message filters, a configuration is that of the other types. */
  lemma LoadedWithout(anonymous: bool, node: NodeId, types: seq<MessageType>, i: nat)
    requires SpecialFilters(anonymous) <= i < |Loaded(anonymous, node, types)| == SpecialFilters(anonymous) + |types|
    ensures
      var configs := Loaded(anonymous, node, types);
      configs[..i] + configs[i + 1..] == Loaded(anonymous, node, WithoutType(types, i - SpecialFilters(anonymous)))
  {
    hide Loaded, MessageFilter, ServiceFilter, AnonymousFilter;
    var configs, base := Loaded(anonymous, node, types), SpecialFilters(anonymous);
    var less := WithoutType(types, i - base);
    LoadedLength(anonymous, node, less);
    forall k: nat | k < |configs| - 1
      ensures (configs[..i] + configs[i + 1..])[k] == Loaded(anonymous, node, less)[k]
    {
      LoadedAt(anonymous, node, less, k);
      LoadedAt(anonymous, node, types, if k < i then k else k + 1);
    }
  }

  lemma LoadedLength(anonymous: bool, node: NodeId, types: seq<MessageType>)
    ensures |Loaded(anonymous, node, types)| == SpecialFilters(anonymous) + |types|
  {
  }

  /** Beyond 256 filters, a merge drops one message type and keeps the configuration of the others as it is. */
  lemma WrappedMergeDropsType(anonymous: bool, node: NodeId, types: seq<MessageType>, after: seq<FilterConfig>)
    returns (t: nat)
    requires AreDistinct(types) && IsValidNode(node) && |Loaded(anonymous, node, types)| > 256
    requires IsOneMerge(Loaded(anonymous, node, types), after)
    ensures t < |types| && after == Loaded(anonymous, node, WithoutType(types, t))
  {
    hide Loaded, IsBest, Merge, MessageFilter;
    var configs := Loaded(anonymous, node, types);
    var i: nat, j: nat :|
      i < |configs| && j < |configs| && IsBest(configs, i, j) && after == MergeStep(configs, i, j);
    WrappedSearchFindsOnePosition(anonymous, node, types, i, j);
    LoadedLength(anonymous, node, types);
    LoadedAt(anonymous, node, types, i);
    t := i - SpecialFilters(anonymous);
    OwnMergeOfMessage(types[t]);
    assert configs[i := configs[i]] == configs;
    var first := FirstIndex(configs, configs[i]);
    if first != i {
      LoadedIsDistinct(anonymous, node, types, i, first);
    }
    LoadedWithout(anonymous, node, types, i);
  }

  /** `kept` is drawn from `types` without repetition. */
  ghost predicate IsSelection(kept: seq<MessageType>, types: seq<MessageType>)
  {
    AreDistinct(kept) && forall d | d in kept :: d in types
  }

  lemma WithoutTypeIsSelection(kept: seq<MessageType>, types: seq<MessageType>, t: nat)
    requires IsSelection(kept, types) && t < |kept|
    ensures IsSelection(WithoutType(kept, t), types)
  {
  }

  /** Merging down to 256 filters or more just drops a type at a time. */
  lemma {:induction false} WrappedMergesDropTypes(anonymous: bool, node: NodeId, types: seq<MessageType>,
                                                  after: seq<FilterConfig>, n: nat) returns (kept: seq<MessageType>)
    requires AreDistinct(types) && IsValidNode(node) && |Loaded(anonymous, node, types)| >= 256 + n
    requires MergesTo(Loaded(anonymous, node, types), after, n)
    ensures IsSelection(kept, types) && |kept| + n == |types| && after == Loaded(anonymous, node, kept)
    decreases n
  {
    hide Loaded, IsOneMerge, AreDistinct;
    if n == 0 {
      kept := types;
    } else {
      var mid :| MergesTo(Loaded(anonymous, node, types), mid, n - 1) && IsOneMerge(mid, after);
      var more := WrappedMergesDropTypes(anonymous, node, types, mid, n - 1);
      LoadedLength(anonymous, node, types);
      LoadedLength(anonymous, node, more);
      var t := WrappedMergeDropsType(anonymous, node, more, after);
      WithoutTypeIsSelection(more, types, t);
      kept := WithoutType(more, t);
    }
  }

  function SetOf(types: seq<MessageType>): set<MessageType> { set t | t in types }

  lemma {:induction false} DistinctCount(types: seq<MessageType>)
    requires AreDistinct(types)
    ensures |SetOf(types)| == |types|
  {
    if types != [] {
      var last := |types| - 1;
      var front := types[..last];
      DistinctCount(front);
      assert types == front + [types[last]];
      assert SetOf(types) == SetOf(front) + {types[last]};
      assert types[last] !in SetOf(front);
    }
  }

  lemma {:induction false} SubsetIsNotLarger(a: set<MessageType>, b: set<MessageType>)
    requires a <= b
    ensures |a| <= |b|
    decreases |a|
  {
    if a != {} {
      var x :| x in a;
      SubsetIsNotLarger(a - {x}, b - {x});
    }
  }

  /** A selection that is smaller leaves something out. */
  lemma SomeTypeIsDropped(kept: seq<MessageType>, types: seq<MessageType>) returns (d: MessageType)
    requires AreDistinct(types) && IsSelection(kept, types) && |kept| < |types|
    ensures d in types && d !in kept
  {
    DistinctCount(types);
    DistinctCount(kept);
    if SetOf(types) <= SetOf(kept) {
      SubsetIsNotLarger(SetOf(types), SetOf(kept));
      assert false;
    }
    d :| d in SetOf(types) && d !in SetOf(kept);
  }

  /** The frames of a type that was dropped pass no filter any more. */
  lemma DroppedTypeIsRejected(anonymous: bool, node: NodeId, types: seq<MessageType>, kept: seq<MessageType>,
                              d: MessageType)
    requires IsValidNode(node) && d in types && d !in kept
    ensures IsRelevant(Probe(d), anonymous, node, types)
    ensures !Accepts(Loaded(anonymous, node, kept), FrameWord(Probe(d)))
  {
    hide Loaded, Accepts, FrameWord, IsValid, Probe;
    LoadedFiltersAreExact(Probe(d), anonymous, node, kept);
  }

  ghost predicate LosesNothing(configs: seq<FilterConfig>, anonymous: bool, node: NodeId, types: seq<MessageType>)
  {
    forall f | IsValid(f) && IsRelevant(f, anonymous, node, types) :: Accepts(configs, FrameWord(f))
  }

  lemma LoadedLosesNothing(anonymous: bool, node: NodeId, types: seq<MessageType>)
    requires IsValidNode(node)
    ensures LosesNothing(Loaded(anonymous, node, types), anonymous, node, types)
  {
    hide Loaded, Accepts, FrameWord, IsValid, IsRelevant;
    forall f | IsValid(f) && IsRelevant(f, anonymous, node, types)
      ensures Accepts(Loaded(anonymous, node, types), FrameWord(f))
    {
      LoadedFiltersAreExact(f, anonymous, node, types);
    }
  }

  /** With at least 256 hardware filters and distinct types, nothing is lost if and only if nothing is merged. */
  lemma NothingIsLostIff(anonymous: bool, node: NodeId, types: seq<MessageType>, after: seq<FilterConfig>, n: nat)
    requires AreDistinct(types) && IsValidNode(node) && |Loaded(anonymous, node, types)| >= 256 + n
    requires MergesTo(Loaded(anonymous, node, types), after, n)
    ensures LosesNothing(after, anonymous, node, types) <==> n == 0
  {
    hide Loaded, IsOneMerge, Accepts, FrameWord, IsValid, IsRelevant, Probe;
    if n == 0 {
      LoadedLosesNothing(anonymous, node, types);
    } else {
      var kept := WrappedMergesDropTypes(anonymous, node, types, after, n);
      var d := SomeTypeIsDropped(kept, types);
      DroppedTypeIsRejected(anonymous, node, types, kept, d);
      assert IsValid(Probe(d));
    }
  }

  lemma {:induction false} MergesSplit(before: seq<FilterConfig>, after: seq<FilterConfig>, m: nat, n: nat)
    returns (mid: seq<FilterConfig>)
    requires MergesTo(before, after, m + n)
    ensures MergesTo(before, mid, m) && MergesTo(mid, after, n)
    decreases n
  {
    hide IsOneMerge;
    if n == 0 {
      mid := after;
    } else {
      var last :| MergesTo(before, last, m + n - 1) && IsOneMerge(last, after);
      mid := MergesSplit(before, last, m, n - 1);
      assert MergesTo(mid, last, n - 1);
    }
  }

  /**
    * More than 256 filters of distinct types for fewer hardware filters: all but 256 of them are dropped one by one,
    * and what the remaining ones accept is kept from then on.
    */
  lemma ManyFiltersKeepSome(anonymous: bool, node: NodeId, types: seq<MessageType>, after: seq<FilterConfig>, n: nat)
    returns (kept: seq<MessageType>)
    requires AreDistinct(types) && IsValidNode(node)
    requires 256 <= |Loaded(anonymous, node, types)| <= 256 + n && MergesTo(Loaded(anonymous, node, types), after, n)
    requires n < |Loaded(anonymous, node, types)|
    ensures IsSelection(kept, types) && |Loaded(anonymous, node, kept)| == 256
    ensures LosesNothing(after, anonymous, node, kept)
  {
    hide Loaded, IsOneMerge, AreDistinct, Accepts, IsTagged, FrameWord, IsValid, IsRelevant;
    var dropped := |Loaded(anonymous, node, types)| - 256;
    var mid := MergesSplit(Loaded(anonymous, node, types), after, dropped, n - dropped);
    kept := WrappedMergesDropTypes(anonymous, node, types, mid, dropped);
    LoadedLength(anonymous, node, types);
    LoadedLength(anonymous, node, kept);
    LoadedIsTagged(anonymous, node, kept);
    LoadedLosesNothing(anonymous, node, kept);
    MergesCover(mid, after, n - dropped);
  }

  const ERR_DRIVER := 4
  const ERR_MEMORY := 3

  class CanAcceptanceFilterConfigurator {
    var configs: seq<FilterConfig>

    constructor ()
      ensures configs == []
    {
      configs := [];
    }

    /** `memory` is the number of filters there is storage for. */
    method LoadInputConfiguration(anonymous: bool, node: NodeId, types: seq<MessageType>, memory: nat)
      returns (res: int)
      modifies this
      ensures configs == Loaded(anonymous, node, types)[..Min(memory, |Loaded(anonymous, node, types)|)]
      ensures res == if |Loaded(anonymous, node, types)| <= memory then 0 else -ERR_MEMORY
    {
      hide AnonymousFilter, ServiceFilter, MessageFilter;
      ghost var all := Loaded(anonymous, node, types);
      configs := [];
      if anonymous {
        if memory == 0 {
          return -ERR_MEMORY;
        }
        configs := configs + [AnonymousFilter()];
      }
      if |configs| == memory {
        return -ERR_MEMORY;
      }
      configs := configs + [ServiceFilter(node)];
      var base := |configs|;
      var p := 0;
      while p < |types|
        invariant 0 <= p <= |types|
        invariant |configs| == base + p <= memory
        invariant |all| == base + |types| && configs == all[..base + p]
      {
        if |configs| == memory {
          return -ERR_MEMORY;
        }
        assert all[base + p] == MessageFilter(types[p]);
        configs := configs + [MessageFilter(types[p])];
        p := p + 1;
      }
      res := 0;
    }

    /** The two indices whose merge keeps the most mask bits. */
    method FindBestPair() returns (bestI: nat, bestJ: nat)
      requires |configs| >= 2
      ensures IsBest(configs, bestI, bestJ)
    {
      hide Merge, Ones;
      var n := |configs|;
      var bestRank := 0;
      bestI, bestJ := 0, 0;
      var i := 0;
      while i + 1 < n
        invariant 0 <= i < n && bestI < n && bestJ < n
        invariant IsBestSoFar(configs, i, 0, bestI, bestJ, bestRank)
      {
        var j := (i + 1) % 256;
        assert IsBestSoFar(configs, i, j, bestI, bestJ, bestRank);
        while j < n
          invariant (i + 1) % 256 <= j <= n && bestI < n && bestJ < n
          invariant IsBestSoFar(configs, i, j, bestI, bestJ, bestRank)
        {
          var merged := Merge(configs[i], configs[j]);
          var rank := CountBits(merged.mask);
          if rank > bestRank {
            bestRank, bestI, bestJ := rank, i, j;
          }
          j := j + 1;
        }
        i := i + 1;
      }
    }

    method MergePair(i: nat, j: nat)
      requires IsBest(configs, i, j)
      modifies this
      ensures i < |old(configs)| && j < |old(configs)| && configs == MergeStep(old(configs), i, j)
    {
      hide Merge;
      var merged := configs[j := Merge(configs[i], configs[j])];
      configs := WithoutFirst(merged, merged[i]);
    }

    /** Stops for any number of hardware filters; up to 256 filters of this node's making, nothing accepted is lost. */
    method MergeConfigurations(numFilters: nat) returns (res: int)
      modifies this
      ensures numFilters == 0 ==> res == -ERR_DRIVER && configs == old(configs)
      ensures numFilters > 0 ==> res == 0 && |configs| == Min(|old(configs)|, numFilters)
      ensures |old(configs)| <= numFilters ==> configs == old(configs)
      ensures MergesTo(old(configs), configs, |old(configs)| - |configs|)
      ensures |old(configs)| <= 256 && AllTagged(old(configs)) ==>
        forall word | Accepts(old(configs), word) :: Accepts(configs, word)
    {
      hide IsBest, Accepts, MergeStep, AllTagged, IsOneMerge;
      if numFilters == 0 {
        return -ERR_DRIVER;
      }
      ghost var merges := 0;
      while numFilters < |configs|
        invariant |configs| + merges == |old(configs)| && |configs| >= Min(|old(configs)|, numFilters)
        invariant MergesTo(old(configs), configs, merges)
        decreases |configs|
      {
        var i, j := FindBestPair();
        ghost var before := configs;
        MergePair(i, j);
        MergePairIsOneMerge(before, i, j);
        merges := merges + 1;
      }
      if |old(configs)| <= 256 && AllTagged(old(configs)) && merges > 0 {
        MergesCover(old(configs), configs, merges);
      }
      res := 0;
    }

    /**
      * The whole configuration. Up to 256 filters, no relevant frame is lost, whatever the number of hardware filters.
      * For at least 256 hardware filters and distinct types, nothing is lost exactly if there are enough of them.
      */
    method ComputeConfiguration(anonymous: bool, node: NodeId, types: seq<MessageType>, memory: nat, numFilters: nat)
      returns (res: int)
      requires IsValidNode(node)
      modifies this
      ensures res == if numFilters == 0 then -ERR_DRIVER
                     else if |Loaded(anonymous, node, types)| <= memory then 0 else -ERR_MEMORY
      ensures res == 0 ==> |configs| == Min(numFilters, |Loaded(anonymous, node, types)|)
      ensures res == 0 ==>
        MergesTo(Loaded(anonymous, node, types), configs, |Loaded(anonymous, node, types)| - |configs|)
      ensures res == 0 && |Loaded(anonymous, node, types)| <= 256 ==> LosesNothing(configs, anonymous, node, types)
      ensures res == 0 && numFilters >= 256 && AreDistinct(types) ==>
        (LosesNothing(configs, anonymous, node, types) <==> |Loaded(anonymous, node, types)| <= numFilters)
    {
      hide IsValid, IsRelevant, Accepts, FrameWord, AllTagged, MergesTo, AreDistinct;
      if numFilters == 0 {
        return -ERR_DRIVER;
      }
      ghost var loaded := Loaded(anonymous, node, types);
      hide Loaded;
      res := LoadInputConfiguration(anonymous, node, types, memory);
      if res != 0 {
        return;
      }
      assert configs == loaded;
      LoadedIsTagged(anonymous, node, types);
      LoadedLosesNothing(anonymous, node, types);
      res := MergeConfigurations(numFilters);
      if numFilters >= 256 && AreDistinct(types) && |loaded| > numFilters {
        NothingIsLostIff(anonymous, node, types, configs, |loaded| - numFilters);
      }
    }
  }
}
