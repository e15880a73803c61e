/**
 Object identification bookkeeping: marking an object known, marking its
 kind aware or tried, the pseudo-identification an equipped object gets
 when one of its properties is obvious, and the coarse pseudo-inscription
 classifier.

 The global kind table and object list are explicit arguments; the
 player-visible messages and the redraw requests come back as sequences.
 */
module Identify {
  import opened Objects

  /* ------------------------------------------------------------------ */
  /* Knowing an object                                                   */
  /* ------------------------------------------------------------------ */

  /** The object becomes fully known: any feeling inscription is removed,
      the "sensed" and "empty" bits are cleared and the "known" bit set. */
  function ObjectKnown(o: Object): (r: Object)
    ensures r.pseudo == NoPseudo
    ensures IdentKnown in r.ident
    ensures IdentSense !in r.ident && IdentEmpty !in r.ident
    ensures SameIdentExcept(r.ident, o.ident, {IdentSense, IdentEmpty, IdentKnown})
    ensures r.(ident := o.ident, pseudo := o.pseudo) == o
  {
    var notSensed := o.ident - {IdentSense};
    var notEmpty := notSensed - {IdentEmpty};
    o.(pseudo := NoPseudo, ident := notEmpty + {IdentKnown})
  }

  /* ------------------------------------------------------------------ */
  /* Kind-level knowledge                                                */
  /* ------------------------------------------------------------------ */

  /** Kind `k` becomes aware; no other entry and no other field changes. */
  function SetAware(kinds: seq<Kind>, k: nat): (r: seq<Kind>)
    requires k < |kinds|
    ensures |r| == |kinds|
    ensures r[k].aware
    ensures r[k].tried == kinds[k].tried
    ensures r[k].toH == kinds[k].toH && r[k].toD == kinds[k].toD && r[k].toA == kinds[k].toA
    ensures forall j :: 0 <= j < |kinds| && j != k ==> r[j] == kinds[j]
  {
    kinds[k := kinds[k].(aware := true)]
  }

  /** Kind `k` is marked as tried (even when already aware); no other entry
      and no other field changes. */
  function SetTried(kinds: seq<Kind>, k: nat): (r: seq<Kind>)
    requires k < |kinds|
    ensures |r| == |kinds|
    ensures r[k].tried
    ensures r[k].aware == kinds[k].aware
    ensures r[k].toH == kinds[k].toH && r[k].toD == kinds[k].toD && r[k].toA == kinds[k].toA
    ensures forall j :: 0 <= j < |kinds| && j != k ==> r[j] == kinds[j]
  {
    kinds[k := kinds[k].(tried := true)]
  }

  /** The object has been sampled: its kind is marked as tried. */
  function ObjectTried(kinds: seq<Kind>, o: Object): (r: seq<Kind>)
    requires o.kIdx < |kinds|
    ensures |r| == |kinds|
    ensures r[o.kIdx].tried && r[o.kIdx].aware == kinds[o.kIdx].aware
    ensures r[o.kIdx].toH == kinds[o.kIdx].toH && r[o.kIdx].toD == kinds[o.kIdx].toD
    ensures r[o.kIdx].toA == kinds[o.kIdx].toA
    ensures forall j :: 0 <= j < |kinds| && j != o.kIdx ==> r[j] == kinds[j]
  {
    SetTried(kinds, o.kIdx)
  }

  /**
   The indices `i` with `1 <= i < n` whose object lies on the floor and is
   of kind `k`, in increasing order.  Index 0 of the object list is
   reserved and never listed.
   */
  function FloorIndices(objects: seq<Object>, k: nat, n: nat): (r: seq<nat>)
    requires n <= 1 || n <= |objects|
    ensures forall j :: 0 <= j < |r| ==> 1 <= r[j] < n && OnFloorOfKind(objects[r[j]], k)
    ensures forall j, j' :: 0 <= j < j' < |r| ==> r[j] < r[j']
    ensures forall i :: 1 <= i < n && OnFloorOfKind(objects[i], k) ==> i in r
    decreases n
  {
    if n <= 1 then []
    else
      FloorIndices(objects, k, n - 1)
      + (if OnFloorOfKind(objects[n - 1], k) then [n - 1] else [])
  }

  /**
   The player becomes aware of the object's kind.  Returns the updated kind
   table and the redraw requests, one per list entry `1 .. |objects|-1`
   that lies on the floor and shares the object's kind, in list order.
   */
  method ObjectAware(kinds: seq<Kind>, objects: seq<Object>, o: Object)
    returns (kinds': seq<Kind>, redraws: seq<Loc>)
    requires o.kIdx < |kinds|
    ensures kinds' == SetAware(kinds, o.kIdx)
    ensures |redraws| == |FloorIndices(objects, o.kIdx, |objects|)|
    ensures forall j :: 0 <= j < |redraws| ==>
              redraws[j] == LocOf(objects[FloorIndices(objects, o.kIdx, |objects|)[j]])
  {
    kinds' := SetAware(kinds, o.kIdx);
    redraws := [];
    var i := 1;
    while i < |objects|
      invariant 1 <= i && (i == 1 || i <= |objects|)
      invariant |redraws| == |FloorIndices(objects, o.kIdx, i)|
      invariant forall j :: 0 <= j < |redraws| ==>
                  redraws[j] == LocOf(objects[FloorIndices(objects, o.kIdx, i)[j]])
    {
      if objects[i].heldMIdx == 0 && objects[i].kIdx == o.kIdx {
        redraws := redraws + [LocOf(objects[i])];
      }
      i := i + 1;
    }
  }

  /* ------------------------------------------------------------------ */
  /* Identification on wield                                             */
  /* ------------------------------------------------------------------ */

  /** The nine flavour messages whose wording depends on the sign of `pval`. */
  datatype MsgGroup =
    | StrGroup | IntGroup | WisGroup | DexGroup | ConGroup | ChrGroup
    | StealthGroup | SpeedGroup | BlowsShotsGroup

  /** A flavour message: one of the nine pval-dependent messages with its
      positive or negative variant, "It shines strangely!" or "Your mind
      feels strangely sharper!". */
  datatype Msg =
    | Strangely(group: MsgGroup, positive: bool)
    | ShinesStrangely
    | MindSharper

  /** The outcome of wielding: the object's new state and the messages emitted. */
  datatype WieldOutcome = WieldOutcome(obj: Object, msgs: seq<Msg>)

  /** Flag group 1 holds an obvious flag, or group 3 holds light or telepathy. */
  predicate Obvious(o: Object, obviousMask: set<Tr1>)
  {
    o.f1 * obviousMask != {} || o.f3 * {TrLite, TrTelepathy} != {}
  }

  /** One row of the flavour-message table: whether the flag behind the
      message is present, and the message it gives. */
  datatype Entry = Entry(present: bool, msg: Msg)

  /**
   The eleven flag tests of an obvious wield, in the order they are made:
   strength, intelligence, wisdom, dexterity, constitution, charisma,
   stealth, speed, blows or shots, light, telepathy.  The first nine take
   their positive wording exactly when `pval` is positive.
   */
  function WieldTable(f1: set<Tr1>, f3: set<Tr3>, pval: int): seq<Entry>
  {
    var pos := pval > 0;
    [ Entry(TrStr in f1, Strangely(StrGroup, pos)),
      Entry(TrInt in f1, Strangely(IntGroup, pos)),
      Entry(TrWis in f1, Strangely(WisGroup, pos)),
      Entry(TrDex in f1, Strangely(DexGroup, pos)),
      Entry(TrCon in f1, Strangely(ConGroup, pos)),
      Entry(TrChr in f1, Strangely(ChrGroup, pos)),
      Entry(TrStealth in f1, Strangely(StealthGroup, pos)),
      Entry(TrSpeed in f1, Strangely(SpeedGroup, pos)),
      Entry(TrBlows in f1 || TrShots in f1, Strangely(BlowsShotsGroup, pos)),
      Entry(TrLite in f3, ShinesStrangely),
      Entry(TrTelepathy in f3, MindSharper) ]
  }

  /** The messages of the present rows, in table order. */
  function Emit(table: seq<Entry>): seq<Msg>
  {
    if |table| == 0 then []
    else (if table[0].present then [table[0].msg] else []) + Emit(table[1..])
  }

  /** The flavour messages of an obvious wield. */
  function WieldMessages(f1: set<Tr1>, f3: set<Tr3>, pval: int): seq<Msg>
  {
    Emit(WieldTable(f1, f3, pval))
  }

  /**
   Equipping an object that is not yet known.  `knownP` is the answer of
   the "object is known" test and `obviousMask` the set of group-1 flags
   that are obvious on wield.  A known object, or one with nothing obvious
   about it, is left alone and nothing is said; otherwise the flavour
   messages are emitted, the object is marked special (artifacts, keeping
   an existing terrible mark) or excellent (everything else), and it is
   marked as sensed.
   */
  function IdOnWield(o: Object, knownP: bool, obviousMask: set<Tr1>): (r: WieldOutcome)
    ensures knownP || !Obvious(o, obviousMask) ==> r.obj == o && r.msgs == []
    ensures !knownP && Obvious(o, obviousMask) ==>
              && r.msgs == WieldMessages(o.f1, o.f3, o.pval)
              && r.obj.ident == o.ident + {IdentSense}
              && (o.isArtifact && o.pseudo == Terrible ==> r.obj.pseudo == Terrible)
              && (o.isArtifact && o.pseudo != Terrible ==> r.obj.pseudo == Special)
              && (!o.isArtifact ==> r.obj.pseudo == Excellent)
    ensures r.obj.(ident := o.ident, pseudo := o.pseudo) == o
  {
    if knownP then WieldOutcome(o, [])
    else
      if !Obvious(o, obviousMask) then
        WieldOutcome(o, [])
      else
        var msgs := WieldMessages(o.f1, o.f3, o.pval);
        var pseudo :=
          if o.isArtifact then (if o.pseudo != Terrible then Special else o.pseudo)
          else Excellent;
        WieldOutcome(o.(pseudo := pseudo, ident := o.ident + {IdentSense}), msgs)
  }

  /* ------------------------------------------------------------------ */
  /* Pseudo-inscription classifier                                       */
  /* ------------------------------------------------------------------ */

  /**
   A short tag giving some idea of what the object is, by strict priority:
   artifacts, then ego items, then cursed objects, then the comparison of
   the object's armour, to-hit and to-damage bonuses with its kind's.
   */
  function ObjectPseudo(kinds: seq<Kind>, o: Object): (r: Pseudo)
    requires o.kIdx < |kinds|
    ensures var k := kinds[o.kIdx];
            var plain := !o.isArtifact && !o.isEgo;
            var above := o.toA > k.toA || o.toH > k.toH || o.toD > k.toD;
            var below := o.toA < k.toA || o.toH < k.toH || o.toD < k.toD;
            && (r == Terrible <==> o.isArtifact && o.isCursed)
            && (r == Special <==> o.isArtifact && !o.isCursed)
            && (r == Worthless <==> !o.isArtifact && o.isEgo && o.isCursed)
            && (r == Excellent <==> !o.isArtifact && o.isEgo && !o.isCursed)
            && (r == Cursed <==> plain && o.isCursed)
            && (r == Average <==> plain && !o.isCursed && !above && !below)
            && (r == Magical <==> plain && !o.isCursed && (above != below))
            && (r == Strange <==> plain && !o.isCursed && above && below)
  {
    var k := kinds[o.kIdx];
    if o.isArtifact then
      (if o.isCursed then Terrible else Special)
    else if o.isEgo then
      (if o.isCursed then Worthless else Excellent)
    else if o.isCursed then Cursed
    else if o.toA == k.toA && o.toH == k.toH && o.toD == k.toD then Average
    else if o.toA >= k.toA && o.toH >= k.toH && o.toD >= k.toD then Magical
    else if o.toA <= k.toA && o.toH <= k.toH && o.toD <= k.toD then Magical
    else Strange
  }
}
