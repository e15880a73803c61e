# Object identification bookkeeping

A Dafny model of the identification routines of the Angband roguelike
(`src/object/identify.c`). It covers:

- marking an object *known*;
- marking an object's *kind* aware, or tried;
- pseudo-identifying an object when equipping it reveals something obvious;
- the coarse pseudo-inscription ("feeling") classifier.

The model is functional. Objects and kinds are immutable records, and the
kind table (`k_info`) and the object list (`o_list[0 .. o_max)`) are
sequences passed in explicitly. Each routine returns its updated state.
The messages a wield prints and the redraws awareness asks for come back
as sequences, in the order the routine produces them.

Files:

- `objects.dfy` (module `Objects`): the object record, the kind record,
  the `ident` bitset, the two capability flag groups and the pseudo tag.
  Bitsets are sets of named flags, plus a catch-all constructor for the
  bits these routines never name.
- `identify.dfy` (module `Identify`): the five routines, each with its
  contract.
- `identify_lemmas.dfy` (module `IdentifyLemmas`): properties that relate
  several calls, or that characterise a result independently of how it is
  computed.

The eleven flag tests of `object_id_on_wield` are written as an ordered
table of (flag present, message) rows, emitted in table order. The source
writes them as a chain of `if` statements. The rows, their conditions and
their order are the same as in the source.

## Model

| member | source | states |
|---|---|---|
| `Identify.ObjectKnown` | src/object/identify.c:38-51 | The pseudo tag ends as 0 whatever it was. Sensed and empty are cleared and known is set. Every other ident bit and every other field is unchanged. |
| `IdentifyLemmas.ObjectKnownIdempotent` | src/object/identify.c:38-51 | Knowing an object twice gives the same state as knowing it once. |
| `IdentifyLemmas.KnownErasesWieldFeeling` | src/object/identify.c:36-51 | Knowing removes anything a feeling left: knowing a wielded object gives the same state as knowing it unwielded. |
| `Identify.SetAware` | src/object/identify.c:62 | The chosen kind becomes aware. Its tried flag and baseline bonuses stay, and every other kind entry stays as it was. |
| `Identify.FloorIndices` | src/object/identify.c:65-70 | Lists exactly the indices `1 <= i < n` whose object is unheld and of the kind, in strictly increasing order. Index 0 is never listed. |
| `Identify.ObjectAware` | src/object/identify.c:57-76 | The kind table becomes the one with only the object's kind made aware. One redraw comes out per unheld same-kind entry `1 .. o_max-1`, in index order, at that entry's `(iy, ix)`. |
| `IdentifyLemmas.FloorIndicesExact` | src/object/identify.c:65-75 | An index is redrawn iff it is in `1 .. o_max-1` and its object is unheld and of the kind; entry 0 is never visited. |
| `Identify.SetTried` | src/object/identify.c:86 | The chosen kind becomes tried, even when aware. Its aware flag and baseline bonuses stay, and every other kind entry stays as it was. |
| `Identify.ObjectTried` | src/object/identify.c:83-87 | The object's kind is marked tried. Its awareness and baseline bonuses stay, and every other kind entry is untouched. |
| `IdentifyLemmas.KindMarksIdempotent` | src/object/identify.c:57-87 | Marking a kind aware, or tried, a second time changes nothing. |
| `IdentifyLemmas.AwareTriedCommute` | src/object/identify.c:57-87 | The aware and tried marks commute, on the same kind or on different kinds. |
| `Identify.IdOnWield` | src/object/identify.c:94-152 | If the object is known, or nothing about it is obvious, nothing changes and no message is emitted. Otherwise the messages are those of the flag table and the sensed bit is set. A non-artifact is marked excellent. An artifact keeps a terrible mark and is otherwise marked special. No other field changes. |
| `IdentifyLemmas.ObviousIff` | src/object/identify.c:105-109 | Obvious means some group-1 flag is in the obvious mask, or group 3 holds light or telepathy. |
| `IdentifyLemmas.WieldTableRanks` | src/object/identify.c:117-138 | The tests run in the order STR, INT, WIS, DEX, CON, CHR, STEALTH, SPEED, BLOWS/SHOTS, LITE, TELEPATHY. |
| `IdentifyLemmas.WieldMessagesOrdered` | src/object/identify.c:117-138 | Messages come out in that fixed order, with no message twice, so there are at most eleven. |
| `IdentifyLemmas.WieldMessagesExact` | src/object/identify.c:117-138 | A message is emitted iff its flag is present (BLOWS or SHOTS for the hands message). A pval message takes its positive variant iff `pval > 0`. Together with the ordering this gives exactly one message per group present. |
| `IdentifyLemmas.WieldMessagesWording` | src/object/identify.c:117-138 | Each of the nine pval messages is positive iff `pval > 0`. The light and telepathy messages do not depend on pval. |
| `IdentifyLemmas.LightOnlyMessages` | src/object/identify.c:117-138 | With light as the only message flag, the messages are exactly "It shines strangely!". |
| `IdentifyLemmas.LightOnlyWield` | src/object/identify.c:105-151 | An unknown object whose only message flag is light gets exactly that one message. It is marked excellent, or special for an artifact (terrible is kept). |
| `IdentifyLemmas.IdOnWieldStateIdempotent` | src/object/identify.c:140-151 | A second wield leaves the object exactly as the first one left it and repeats the same messages. |
| `IdentifyLemmas.IdOnWieldArtifactMarks` | src/object/identify.c:141-145 | A wield never marks an artifact excellent and never replaces an artifact's terrible mark. |
| `Identify.ObjectPseudo` | src/object/identify.c:159-190 | Each tag holds iff its condition holds, so the eight tags partition all inputs. Terrible: a cursed artifact. Special: an uncursed artifact. Worthless or excellent: a cursed or uncursed ego item. Cursed: any other cursed object. Average: no bonus differs from the kind's. Magical: some bonus differs, all in one direction. Strange: one bonus above the kind's and another below. |
| `IdentifyLemmas.ObjectPseudoRange` | src/object/identify.c:159-190 | The classifier never returns the empty tag or a tag outside the eight it names. |
| `IdentifyLemmas.ArtifactPriority` | src/object/identify.c:163-169 | A cursed artifact is terrible, never cursed, worthless or magical. |

## Left out

- Message text and the message log (`msg_format`, `msg_print`): each message is an abstract token. The token is the flag group with its positive or negative variant, or one of the two fixed light and telepathy messages.
- Map rendering (`lite_spot`): a redraw is only the emitted `(iy, ix)` coordinate.
- Flag extraction (`object_flags`): its definition is not part of this model. The object record carries the two flag groups it would yield (`f1`, `f3`). Group 2 is extracted by the source but never read, so it is not modelled.
- `object_known_p`: its definition is not part of this model. `IdOnWield` takes its answer as the parameter `knownP`. Because of this, no lemma links `ObjectKnown` to the early exit of a later wield.
- `artifact_p`, `ego_item_p`, `cursed_p`: their definitions are not part of this model. Their answers are the fields `isArtifact`, `isEgo` and `isCursed` of the object record.
- The bit values of `IDENT_*`, `TR1_*`, `TR3_*` and `INSCRIP_*`: these come from `angband.h`, which is not part of this model. Flags are named constructors. `TR1_OBVIOUS_MASK` is a set parameter with no assumption about which flags it contains. `INSCRIP_*` values the routines do not name are `OtherPseudo(code)`.
- The catch-all constructors `IdentOther(bit)`, `OtherPseudo(code)`, `Tr1Other(bit)` and `Tr3Other(bit)` never stand for a bit, flag or tag the routines name. For example, an `OtherPseudo` code is never INSCRIP_TERRIBLE's, and an `IdentOther` bit is never IDENT_SENSE's. A value built otherwise is outside the model: `IdOnWield` would not keep it as terrible, and `ObjectKnown` would not clear it.
- Integer widths: the routines only compare the signed bonuses and `pval`, with no arithmetic, so these are unbounded `int`s. `kIdx` indexes the kind table without a bounds check in the source. Callers guarantee a valid kind, which the model states as `kIdx < |kinds|`.
- Process-wide state (`k_info`, `o_list`, `o_max`): passed in and returned explicitly. The object list argument is `o_list[0 .. o_max)`.
