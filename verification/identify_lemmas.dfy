/**
 Properties of the identification routines that relate several calls or
 characterise a result independently of how it is computed: idempotence,
 commutation of the two kind-level marks, the exact set and order of the
 flavour messages on wield, and the partition the classifier induces.
 */
module IdentifyLemmas {
  import opened Objects
  import opened Identify

  /* ------------------------------------------------------------------ */
  /* Knowing                                                             */
  /* ------------------------------------------------------------------ */

  /** Knowing an object twice is the same as knowing it once. */
  lemma ObjectKnownIdempotent(o: Object)
    ensures ObjectKnown(ObjectKnown(o)) == ObjectKnown(o)
  {
  }

  /** Whatever feeling a wield left on an object, knowing the object
      afterwards gives the same state as knowing it without the wield. */
  lemma KnownErasesWieldFeeling(o: Object, knownP: bool, obviousMask: set<Tr1>)
    ensures ObjectKnown(IdOnWield(o, knownP, obviousMask).obj) == ObjectKnown(o)
  {
    var w := IdOnWield(o, knownP, obviousMask).obj;
    assert w.ident - {IdentSense} == o.ident - {IdentSense};
  }

  /* ------------------------------------------------------------------ */
  /* Kind-level knowledge                                                */
  /* ------------------------------------------------------------------ */

  /** Marking a kind aware, or tried, a second time changes nothing. */
  lemma KindMarksIdempotent(kinds: seq<Kind>, k: nat)
    requires k < |kinds|
    ensures SetAware(SetAware(kinds, k), k) == SetAware(kinds, k)
    ensures SetTried(SetTried(kinds, k), k) == SetTried(kinds, k)
  {
  }

  /** Awareness and "tried" live in separate fields: the two marks commute,
      on the same kind or on different kinds. */
  lemma AwareTriedCommute(kinds: seq<Kind>, a: nat, t: nat)
    requires a < |kinds| && t < |kinds|
    ensures SetAware(SetTried(kinds, t), a) == SetTried(SetAware(kinds, a), t)
  {
  }

  /** The redraw scan lists exactly the floor objects of the kind, never the
      reserved entry 0, each index once. */
  lemma FloorIndicesExact(objects: seq<Object>, k: nat, i: nat)
    requires |objects| > 0
    ensures i in FloorIndices(objects, k, |objects|) <==>
              1 <= i < |objects| && objects[i].heldMIdx == 0 && objects[i].kIdx == k
    ensures 0 !in FloorIndices(objects, k, |objects|)
  {
  }

  /* ------------------------------------------------------------------ */
  /* Flavour messages on wield                                           */
  /* ------------------------------------------------------------------ */

  /** Position of a message group in the fixed test order. */
  function GroupRank(g: MsgGroup): nat
  {
    match g
    case StrGroup => 0
    case IntGroup => 1
    case WisGroup => 2
    case DexGroup => 3
    case ConGroup => 4
    case ChrGroup => 5
    case StealthGroup => 6
    case SpeedGroup => 7
    case BlowsShotsGroup => 8
  }

  /** Position of a message in the fixed test order. */
  function Rank(m: Msg): nat
  {
    match m
    case Strangely(g, _) => GroupRank(g)
    case ShinesStrangely => 9
    case MindSharper => 10
  }

  /** The flag (or, for blows and shots, either flag) behind a message group. */
  predicate GroupPresent(g: MsgGroup, f1: set<Tr1>)
  {
    match g
    case StrGroup => TrStr in f1
    case IntGroup => TrInt in f1
    case WisGroup => TrWis in f1
    case DexGroup => TrDex in f1
    case ConGroup => TrCon in f1
    case ChrGroup => TrChr in f1
    case StealthGroup => TrStealth in f1
    case SpeedGroup => TrSpeed in f1
    case BlowsShotsGroup => TrBlows in f1 || TrShots in f1
  }

  /** Message `m` is due for an object with these flags and this pval. */
  predicate Expected(m: Msg, f1: set<Tr1>, f3: set<Tr3>, pval: int)
  {
    match m
    case Strangely(g, positive) => GroupPresent(g, f1) && positive == (pval > 0)
    case ShinesStrangely => TrLite in f3
    case MindSharper => TrTelepathy in f3
  }

  /** Ranks strictly increase along `msgs`. */
  predicate StrictlyRanked(msgs: seq<Msg>)
  {
    forall j, j' :: 0 <= j < j' < |msgs| ==> Rank(msgs[j]) < Rank(msgs[j'])
  }

  /** Every message of `msgs` ranks below `bound`. */
  predicate RankedBelow(msgs: seq<Msg>, bound: nat)
  {
    forall j :: 0 <= j < |msgs| ==> Rank(msgs[j]) < bound
  }

  /** Every message of `msgs` ranks within `[lo, hi)`. */
  predicate RankedWithin(msgs: seq<Msg>, lo: nat, hi: nat)
  {
    forall j :: 0 <= j < |msgs| ==> lo <= Rank(msgs[j]) < hi
  }

  /** Emitting from a table whose rows rank `base, base+1, ...` yields
      strictly ranked messages within the table's rank range. */
  lemma {:induction false} EmitRanked(table: seq<Entry>, base: nat)
    requires forall i :: 0 <= i < |table| ==> Rank(table[i].msg) == base + i
    ensures StrictlyRanked(Emit(table))
    ensures RankedWithin(Emit(table), base, base + |table|)
    decreases |table|
  {
    if |table| > 0 {
      var rest := table[1..];
      assert forall i :: 0 <= i < |rest| ==> Rank(rest[i].msg) == base + 1 + i by {
        forall i | 0 <= i < |rest| ensures Rank(rest[i].msg) == base + 1 + i {
          assert rest[i] == table[i + 1];
        }
      }
      EmitRanked(rest, base + 1);
      var head := if table[0].present then [table[0].msg] else [];
      var tail := Emit(rest);
      assert Emit(table) == head + tail;
      forall j | 0 <= j < |head + tail| ensures base <= Rank((head + tail)[j]) < base + |table| {
        if j >= |head| { assert (head + tail)[j] == tail[j - |head|]; }
      }
      forall j, j' | 0 <= j < j' < |head + tail| ensures Rank((head + tail)[j]) < Rank((head + tail)[j']) {
        if j >= |head| {
          assert (head + tail)[j] == tail[j - |head|];
          assert (head + tail)[j'] == tail[j' - |head|];
        } else {
          assert (head + tail)[j'] == tail[j' - |head|];
        }
      }
    }
  }

  /** A message is emitted exactly when some present row carries it. */
  lemma {:induction false} EmitMembers(table: seq<Entry>, m: Msg)
    ensures m in Emit(table) <==> exists i :: 0 <= i < |table| && table[i].present && table[i].msg == m
    decreases |table|
  {
    if |table| > 0 {
      var rest := table[1..];
      EmitMembers(rest, m);
      if exists i :: 0 <= i < |rest| && rest[i].present && rest[i].msg == m {
        var i :| 0 <= i < |rest| && rest[i].present && rest[i].msg == m;
        assert table[i + 1] == rest[i];
      }
      if exists i :: 0 <= i < |table| && table[i].present && table[i].msg == m {
        var i :| 0 <= i < |table| && table[i].present && table[i].msg == m;
        if i > 0 { assert rest[i - 1] == table[i]; }
      }
    }
  }

  /** Row `i` of the wield table carries a message of rank `i`. */
  lemma WieldTableRanks(f1: set<Tr1>, f3: set<Tr3>, pval: int)
    ensures |WieldTable(f1, f3, pval)| == 11
    ensures forall i :: 0 <= i < 11 ==> Rank(WieldTable(f1, f3, pval)[i].msg) == i
  {
  }

  /**
   The wield messages come out in the fixed order strength, intelligence,
   wisdom, dexterity, constitution, charisma, stealth, speed, blows/shots,
   light, telepathy, with no message twice and so at most eleven of them.
   */
  lemma WieldMessagesOrdered(f1: set<Tr1>, f3: set<Tr3>, pval: int)
    ensures StrictlyRanked(WieldMessages(f1, f3, pval))
    ensures |WieldMessages(f1, f3, pval)| <= 11
  {
    var msgs := WieldMessages(f1, f3, pval);
    WieldTableRanks(f1, f3, pval);
    EmitRanked(WieldTable(f1, f3, pval), 0);
    assert RankedBelow(msgs, 11);
    RankedLength(msgs, 11);
  }

  /** A strictly ranked sequence of messages ranked below `bound` has at
      most `bound` elements. */
  lemma {:induction false} RankedLength(msgs: seq<Msg>, bound: nat)
    requires StrictlyRanked(msgs) && RankedBelow(msgs, bound)
    ensures |msgs| <= bound
    decreases |msgs|
  {
    if |msgs| > 0 {
      var last := |msgs| - 1;
      var front := msgs[..last];
      assert StrictlyRanked(front);
      assert RankedBelow(front, Rank(msgs[last])) by {
        forall j | 0 <= j < |front| ensures Rank(front[j]) < Rank(msgs[last]) {
          assert front[j] == msgs[j];
        }
      }
      RankedLength(front, Rank(msgs[last]));
    }
  }

  /** A message is emitted exactly when its flag is present, with the
      positive wording exactly when pval is positive. */
  lemma WieldMessagesExact(f1: set<Tr1>, f3: set<Tr3>, pval: int, m: Msg)
    ensures m in WieldMessages(f1, f3, pval) <==> Expected(m, f1, f3, pval)
  {
    var table := WieldTable(f1, f3, pval);
    WieldTableRanks(f1, f3, pval);
    EmitMembers(table, m);
    var r := Rank(m);
    if m in WieldMessages(f1, f3, pval) {
      var i :| 0 <= i < |table| && table[i].present && table[i].msg == m;
      assert i == r;
    }
    if Expected(m, f1, f3, pval) {
      assert table[r].present && table[r].msg == m;
    }
  }

  /** The light and telepathy messages do not depend on pval; every other
      message takes its positive wording iff pval is positive. */
  lemma WieldMessagesWording(f1: set<Tr1>, f3: set<Tr3>, pval: int, pval': int)
    ensures forall m :: m in WieldMessages(f1, f3, pval) && m.Strangely? ==> m.positive == (pval > 0)
    ensures (ShinesStrangely in WieldMessages(f1, f3, pval)) == (ShinesStrangely in WieldMessages(f1, f3, pval'))
    ensures (MindSharper in WieldMessages(f1, f3, pval)) == (MindSharper in WieldMessages(f1, f3, pval'))
  {
    forall m | m in WieldMessages(f1, f3, pval) && m.Strangely?
      ensures m.positive == (pval > 0)
    {
      WieldMessagesExact(f1, f3, pval, m);
    }
    WieldMessagesExact(f1, f3, pval, ShinesStrangely);
    WieldMessagesExact(f1, f3, pval', ShinesStrangely);
    WieldMessagesExact(f1, f3, pval, MindSharper);
    WieldMessagesExact(f1, f3, pval', MindSharper);
  }

  /** With light as the only message flag, the one message is "It shines
      strangely!". */
  lemma LightOnlyMessages(f1: set<Tr1>, f3: set<Tr3>, pval: int)
    requires TrLite in f3 && TrTelepathy !in f3
    requires forall g :: !GroupPresent(g, f1)
    ensures WieldMessages(f1, f3, pval) == [ShinesStrangely]
  {
    var msgs := WieldMessages(f1, f3, pval);
    forall j | 0 <= j < |msgs| ensures msgs[j] == ShinesStrangely {
      WieldMessagesExact(f1, f3, pval, msgs[j]);
    }
    WieldMessagesExact(f1, f3, pval, ShinesStrangely);
    WieldMessagesOrdered(f1, f3, pval);
    var last := |msgs| - 1;
    assert msgs[0] == msgs[last];
    assert last == 0;
  }

  /** An object whose only message flag is light, wielded while unknown,
      says "It shines strangely!" and nothing else, and is marked as any
      obvious wield marks it. */
  lemma LightOnlyWield(o: Object, obviousMask: set<Tr1>)
    requires TrLite in o.f3 && TrTelepathy !in o.f3
    requires forall g :: !GroupPresent(g, o.f1)
    ensures IdOnWield(o, false, obviousMask).msgs == [ShinesStrangely]
    ensures IdOnWield(o, false, obviousMask).obj.pseudo ==
              (if !o.isArtifact then Excellent else if o.pseudo == Terrible then Terrible else Special)
  {
    assert TrLite in o.f3 * {TrLite, TrTelepathy};
    assert Obvious(o, obviousMask);
    LightOnlyMessages(o.f1, o.f3, o.pval);
  }

  /** Obviousness is a flag of the mask in group 1, or light or telepathy in group 3. */
  lemma ObviousIff(o: Object, obviousMask: set<Tr1>)
    ensures Obvious(o, obviousMask) <==>
              (exists f :: f in o.f1 && f in obviousMask) || TrLite in o.f3 || TrTelepathy in o.f3
  {
    if TrLite in o.f3 {
      assert TrLite in o.f3 * {TrLite, TrTelepathy};
    }
    if TrTelepathy in o.f3 {
      assert TrTelepathy in o.f3 * {TrLite, TrTelepathy};
    }
    if o.f1 * obviousMask != {} {
      var f :| f in o.f1 * obviousMask;
      assert f in o.f1 && f in obviousMask;
    }
    if exists f :: f in o.f1 && f in obviousMask {
      var f :| f in o.f1 && f in obviousMask;
      assert f in o.f1 * obviousMask;
    }
  }

  /* ------------------------------------------------------------------ */
  /* Marks left by a wield                                               */
  /* ------------------------------------------------------------------ */

  /** Wielding again leaves the object as the first wield left it (and
      repeats the same messages). */
  lemma IdOnWieldStateIdempotent(o: Object, knownP: bool, obviousMask: set<Tr1>)
    ensures var w := IdOnWield(o, knownP, obviousMask);
            IdOnWield(w.obj, knownP, obviousMask) == w
  {
  }

  /** A wield never marks an artifact excellent, and never turns an
      artifact's terrible mark into anything else. */
  lemma IdOnWieldArtifactMarks(o: Object, knownP: bool, obviousMask: set<Tr1>)
    requires o.isArtifact
    ensures o.pseudo != Excellent ==> IdOnWield(o, knownP, obviousMask).obj.pseudo != Excellent
    ensures o.pseudo == Terrible ==> IdOnWield(o, knownP, obviousMask).obj.pseudo == Terrible
  {
  }

  /* ------------------------------------------------------------------ */
  /* The classifier                                                      */
  /* ------------------------------------------------------------------ */

  /** The classifier never yields the empty tag or a tag it does not name. */
  lemma ObjectPseudoRange(kinds: seq<Kind>, o: Object)
    requires o.kIdx < |kinds|
    ensures ObjectPseudo(kinds, o) in {Terrible, Special, Worthless, Excellent, Cursed, Average, Magical, Strange}
  {
  }

  /** Artifacts win over every other rule: a cursed artifact is terrible,
      never merely cursed, worthless or magical. */
  lemma ArtifactPriority(kinds: seq<Kind>, o: Object)
    requires o.kIdx < |kinds| && o.isArtifact && o.isCursed
    ensures ObjectPseudo(kinds, o) == Terrible
  {
  }
}
