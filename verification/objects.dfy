/**
 The data model of object identification: object instances, the shared
 table of object kinds, the identification bitset, the capability flag
 groups and the pseudo-inscription ("feeling") tag.

 The concrete bit values of the IDENT_*, TR1_*, TR3_* and INSCRIP_*
 constants are not part of this model, so each bitset is a set of named
 flags, with one catch-all constructor standing for every bit that the
 identification routines never name.
 */
module Objects {

  /** One bit of an object's `ident` field. */
  datatype IdentFlag =
    | IdentSense            // the object has been "sensed" (pseudo-identified)
    | IdentEmpty            // the object is known to be empty
    | IdentKnown            // the object is fully known
    | IdentOther(bit: nat)  // any other identification bit

  /** The pseudo-inscription tag of an object; `NoPseudo` is the value 0. */
  datatype Pseudo =
    | NoPseudo
    | Terrible
    | Worthless
    | Cursed
    | Average
    | Magical
    | Strange
    | Excellent
    | Special
    | OtherPseudo(code: nat)  // a tag value set by code outside this model

  /** A flag of the first capability group (`f1`). */
  datatype Tr1 =
    | TrStr | TrInt | TrWis | TrDex | TrCon | TrChr
    | TrStealth | TrSpeed | TrBlows | TrShots
    | Tr1Other(bit: nat)

  /** A flag of the third capability group (`f3`). */
  datatype Tr3 =
    | TrLite
    | TrTelepathy
    | Tr3Other(bit: nat)

  /** A floor coordinate, row first, as `lite_spot` takes it. */
  datatype Loc = Loc(y: int, x: int)

  /** An entry of the kind table: the kind's baseline bonuses and its two
      process-wide knowledge flags. */
  datatype Kind = Kind(toH: int, toD: int, toA: int, aware: bool, tried: bool)

  /**
   One object instance.  `isArtifact`, `isEgo` and `isCursed` are the
   answers of the artifact, ego-item and cursed predicates, and `f1`, `f3`
   the flag groups that flag extraction yields for this object; the model
   takes all of them as given.  `heldMIdx` is 0 when no monster holds the
   object.
   */
  datatype Object = Object(
    kIdx: nat,
    ident: set<IdentFlag>,
    pseudo: Pseudo,
    pval: int,
    toH: int,
    toD: int,
    toA: int,
    iy: int,
    ix: int,
    heldMIdx: int,
    isArtifact: bool,
    isEgo: bool,
    isCursed: bool,
    f1: set<Tr1>,
    f3: set<Tr3>)

  /** Where the object would be drawn if it lies on the floor. */
  function LocOf(o: Object): Loc
  {
    Loc(o.iy, o.ix)
  }

  /** The object lies on the floor and is of kind `k`. */
  predicate OnFloorOfKind(o: Object, k: nat)
  {
    o.heldMIdx == 0 && o.kIdx == k
  }

  /** `a` and `b` agree on every identification bit other than those in `touched`. */
  predicate SameIdentExcept(a: set<IdentFlag>, b: set<IdentFlag>, touched: set<IdentFlag>)
  {
    a - touched == b - touched
  }
}
