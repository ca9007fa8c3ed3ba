/** The store of byte strings that an image and its live chains stand for, and what growing,
    adding and freeing chains do to it. */
module Fat32Store {
  import opened Basics
  import opened Fat32Layout
  import opened Fat32Chain
  import opened Fat32Grow
  import opened Fat32Tree

  ghost predicate ImageOk(g: Geometry, im: Image, chains: map<nat, seq<nat>>) {
    WellSized(g, im) && |im.fat| <= EOC && Chains(im.fat, chains)
  }

  lemma ChainsInData(g: Geometry, im: Image, chains: map<nat, seq<nat>>, s: nat)
    requires ImageOk(g, im, chains) && s in chains
    ensures InData(im, chains[s])
  {
    ChainBounds(im.fat, chains[s]);
  }

  ghost function StoreOf(g: Geometry, im: Image, chains: map<nat, seq<nat>>): (m: Store)
    requires ImageOk(g, im, chains)
    ensures m.Keys == chains.Keys
  {
    map s | s in chains :: (ChainsInData(g, im, chains, s); Content(im, chains[s]))
  }

  /** A chain other than the grown one keeps its links and its bytes. */
  lemma GrownOther(g: Geometry, im: Image, ch0: seq<nat>, im': Image, ch: seq<nat>, other: seq<nat>)
    requires Grown(g, im, ch0, im', ch) && IsChain(im.fat, other) && Apart(ch0, other)
    ensures Apart(ch, other) && IsChain(im'.fat, other) && InData(im, other) && InData(im', other)
    ensures Content(im', other) == Content(im, other)
  {
    forall i, j | 0 <= i < |ch| && 0 <= j < |other|
      ensures ch[i] != other[j]
    {
      if i < |ch0| {
        assert ch[i] == ch0[i];
      } else {
        FreeNotInChain(im.fat, other, ch[i]);
      }
    }
    forall j | 0 <= j < |other|
      ensures im'.fat[other[j]] == im.fat[other[j]] && im'.data[other[j]] == im.data[other[j]]
    {
      assert other[j] !in ch;
    }
    ChainFrame(im.fat, im'.fat, other);
    ChainBounds(im.fat, other);
    ContentFrame(im, im', other);
  }

  lemma GrownFacts(g: Geometry, im: Image, ch0: seq<nat>, im': Image, ch: seq<nat>)
    requires Grown(g, im, ch0, im', ch)
    ensures WellSized(g, im') && |im'.fat| == |im.fat| && IsChain(im'.fat, ch) && InData(im', ch)
    ensures |ch0| > 0 && |ch| > 0 && ch[0] == ch0[0]
  {}

  /** Growing and writing one chain changes that chain's bytes and no other's. */
  lemma StoreGrown(g: Geometry, im: Image, chains: map<nat, seq<nat>>, s: nat, im': Image, ch: seq<nat>)
    requires ImageOk(g, im, chains) && s in chains && Grown(g, im, chains[s], im', ch)
    ensures ImageOk(g, im', chains[s := ch]) && InData(im', ch)
    ensures StoreOf(g, im', chains[s := ch]) == StoreOf(g, im, chains)[s := Content(im', ch)]
  {
    hide Content, IsChain, Grown, WellSized, Apart, InData;
    GrownFacts(g, im, chains[s], im', ch);
    forall t | t in chains && t != s
      ensures IsChain(im'.fat, chains[t]) && InData(im', chains[t]) && Content(im', chains[t]) == StoreOf(g, im, chains)[t]
      ensures Apart(ch, chains[t]) && Apart(chains[t], ch)
    {
      ChainsInData(g, im, chains, t);
      GrownOther(g, im, chains[s], im', ch, chains[t]);
      ApartSym(ch, chains[t]);
    }
  }

  /** Rewriting a cluster that is in no chain changes no chain's bytes. */
  lemma StoreElsewhere(g: Geometry, im: Image, chains: map<nat, seq<nat>>, c: nat, im': Image, bytes: seq<Byte>)
    requires ImageOk(g, im, chains) && Free(im.fat, c) && Rewritten(g, im, im', c, bytes)
    ensures ImageOk(g, im', chains) && StoreOf(g, im', chains) == StoreOf(g, im, chains)
  {
    forall s | s in chains
      ensures InData(im, chains[s]) && InData(im', chains[s]) && Content(im', chains[s]) == Content(im, chains[s])
    {
      FreeNotInChain(im.fat, chains[s], c);
      ChainsInData(g, im, chains, s);
      ContentFrame(im, im', chains[s]);
    }
  }

  lemma ApartSym(a: seq<nat>, b: seq<nat>)
    requires Apart(a, b)
    ensures Apart(b, a)
  {}

  lemma FreeNotFirst(fat: seq<nat>, chains: map<nat, seq<nat>>, c: nat)
    requires Chains(fat, chains) && Free(fat, c)
    ensures c !in chains
  {
    forall s | s in chains
      ensures s != c
    {
      FreeNotInChain(fat, chains[s], c);
      assert chains[s][0] == s;
    }
  }

  /** A chain without c, once c is taken. */
  lemma TakenOther(g: Geometry, im: Image, c: nat, ch: seq<nat>)
    requires WellSized(g, im) && Free(im.fat, c) && IsChain(im.fat, ch)
    ensures var im' := Taken(g.spc, im, c);
            IsChain(im'.fat, ch) && InData(im, ch) && InData(im', ch) && Content(im', ch) == Content(im, ch)
    ensures Apart([c], ch) && Apart(ch, [c])
  {
    var im' := Taken(g.spc, im, c);
    FreeNotInChain(im.fat, ch, c);
    ChainBounds(im.fat, ch);
    ChainFrame(im.fat, im'.fat, ch);
    ContentFrame(im, im', ch);
  }

  lemma TakenFacts(g: Geometry, im: Image, c: nat)
    requires WellSized(g, im) && Free(im.fat, c)
    ensures var im' := Taken(g.spc, im, c);
            && WellSized(g, im') && |im'.fat| == |im.fat|
            && IsChain(im'.fat, [c]) && InData(im', [c]) && Content(im', [c]) == Zeros(ClusterSize(g))
  {
    ContentOne(Taken(g.spc, im, c), c);
    ZeroClusterBytes(g.spc);
  }

  /** A free cluster taken as a chain of its own. */
  lemma StoreTaken(g: Geometry, im: Image, chains: map<nat, seq<nat>>, c: nat)
    requires ImageOk(g, im, chains) && Free(im.fat, c)
    ensures c !in chains && ImageOk(g, Taken(g.spc, im, c), chains[c := [c]])
    ensures StoreOf(g, Taken(g.spc, im, c), chains[c := [c]]) == StoreOf(g, im, chains)[c := Zeros(ClusterSize(g))]
  {
    var im' := Taken(g.spc, im, c);
    FreeNotFirst(im.fat, chains, c);
    TakenFacts(g, im, c);
    hide Content, IsChain, WellSized, Apart, InData, Taken;
    forall t | t in chains
      ensures Carried(im, im', c, chains[t])
    {
      TakenOther(g, im, c, chains[t]);
    }
    StoreAdded(g, im, chains, c, im');
  }

  /** A chain without c whose links and bytes are as before. */
  ghost predicate Carried(im: Image, im': Image, c: nat, ch: seq<nat>) {
    && IsChain(im'.fat, ch) && InData(im, ch) && InData(im', ch) && Content(im', ch) == Content(im, ch)
    && Apart([c], ch) && Apart(ch, [c])
  }

  lemma StoreAdded(g: Geometry, im: Image, chains: map<nat, seq<nat>>, c: nat, im': Image)
    requires ImageOk(g, im, chains) && c !in chains
    requires WellSized(g, im') && |im'.fat| == |im.fat| && IsChain(im'.fat, [c]) && InData(im', [c])
    requires forall t :: t in chains ==> Carried(im, im', c, chains[t])
    ensures ImageOk(g, im', chains[c := [c]])
    ensures StoreOf(g, im', chains[c := [c]]) == StoreOf(g, im, chains)[c := Content(im', [c])]
  {
    hide Content, IsChain, WellSized, Apart, InData;
  }

  lemma ChainTail(fat: seq<nat>, ch: seq<nat>)
    requires IsChain(fat, ch) && |ch| > 1
    ensures IsChain(fat[ch[0] := 0], ch[1..]) && fat[ch[0]] == ch[1]
  {
    var fat', rest := fat[ch[0] := 0], ch[1..];
    forall i | 0 <= i < |rest| - 1
      ensures fat'[rest[i]] == rest[i + 1]
    {
      assert fat[ch[i + 1]] == ch[i + 2];
    }
    assert fat[ch[0]] == ch[1];
  }

  /** Following and zeroing a chain zeroes exactly its clusters. */
  lemma {:induction false} FreedChain(fat: seq<nat>, ch: seq<nat>)
    requires IsChain(fat, ch) && |fat| <= EOC
    ensures Inside(fat, ch[0]) && |Freed(fat, ch[0])| == |fat|
    ensures forall c :: 0 <= c < |fat| ==> Freed(fat, ch[0])[c] == if c in ch then 0 else fat[c]
    decreases |ch|
  {
    var fat' := fat[ch[0] := 0];
    FreedStep(fat, ch[0]);
    if |ch| > 1 {
      ChainTail(fat, ch);
      FreedChain(fat', ch[1..]);
      hide Freed, Inside, IsChain;
      assert ch == [ch[0]] + ch[1..];
    } else {
      assert fat[ch[0]] == fat[ch[|ch| - 1]] >= EOC;
    }
  }

  lemma FreedStep(fat: seq<nat>, cur: nat)
    requires 2 <= cur < |fat| <= EOC
    ensures Inside(fat, cur) <==> Inside(fat[cur := 0], fat[cur])
    ensures Inside(fat, cur) ==> Freed(fat, cur) == Freed(fat[cur := 0], fat[cur])
  {}

  lemma FreedOther(g: Geometry, im: Image, fat': seq<nat>, ch: seq<nat>, other: seq<nat>)
    requires WellSized(g, im) && |fat'| == |im.fat| && IsChain(im.fat, other) && Apart(ch, other)
    requires forall c :: 0 <= c < |fat'| ==> fat'[c] == if c in ch then 0 else im.fat[c]
    ensures var im' := im.(fat := fat');
            IsChain(fat', other) && InData(im, other) && InData(im', other) && Content(im', other) == Content(im, other)
  {
    ChainBounds(im.fat, other);
    ChainFrame(im.fat, fat', other);
    ContentFrame(im, im.(fat := fat'), other);
  }

  /** Freeing a chain removes its bytes, returns exactly its clusters, and touches nothing else. */
  lemma StoreFreed(g: Geometry, im: Image, chains: map<nat, seq<nat>>, s: nat)
    requires ImageOk(g, im, chains) && s in chains
    ensures s < |im.fat| && Inside(im.fat, s)
    ensures var im' := im.(fat := Freed(im.fat, s));
            && ImageOk(g, im', chains - {s})
            && StoreOf(g, im', chains - {s}) == StoreOf(g, im, chains) - {s}
            && forall c :: 0 <= c < |im.fat| ==> im'.fat[c] == if c in chains[s] then 0 else im.fat[c]
  {
    FreedChain(im.fat, chains[s]);
    ChainBounds(im.fat, chains[s]);
    assert chains[s][0] == s;
    assert WellSized(g, im.(fat := Freed(im.fat, s)));
    StoreShrunk(g, im, chains, s, Freed(im.fat, s));
  }

  lemma StoreShrunk(g: Geometry, im: Image, chains: map<nat, seq<nat>>, s: nat, fat': seq<nat>)
    requires ImageOk(g, im, chains) && s in chains
    requires WellSized(g, im.(fat := fat')) && |fat'| == |im.fat|
    requires forall c :: 0 <= c < |fat'| ==> fat'[c] == if c in chains[s] then 0 else im.fat[c]
    ensures var im' := im.(fat := fat');
            ImageOk(g, im', chains - {s}) && StoreOf(g, im', chains - {s}) == StoreOf(g, im, chains) - {s}
  {
    var im', ch := im.(fat := fat'), chains[s];
    hide Content, IsChain, WellSized, Apart, InData;
    forall t | t in chains && t != s
      ensures Kept(im, im', chains[t])
    {
      FreedOther(g, im, fat', ch, chains[t]);
    }
    StoreRemoved(g, im, chains, s, im');
  }

  lemma StoreRemoved(g: Geometry, im: Image, chains: map<nat, seq<nat>>, s: nat, im': Image)
    requires ImageOk(g, im, chains) && s in chains
    requires WellSized(g, im') && |im'.fat| == |im.fat|
    requires forall t :: t in chains && t != s ==> Kept(im, im', chains[t])
    ensures ImageOk(g, im', chains - {s}) && StoreOf(g, im', chains - {s}) == StoreOf(g, im, chains) - {s}
  {
    hide Content, IsChain, WellSized, Apart, InData;
  }

  /** A chain whose links and bytes are as before. */
  ghost predicate Kept(im: Image, im': Image, ch: seq<nat>) {
    IsChain(im'.fat, ch) && InData(im, ch) && InData(im', ch) && Content(im', ch) == Content(im, ch)
  }
}
