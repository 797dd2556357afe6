# manaKeep deck logic in Dafny

manaKeep is a React Native app for keeping Magic: The Gathering decks. Most
of it draws screens. This project models the four pieces of it that decide
something:

- **Mana-colour border** (`DeckCard`). A deck's free-text `colors` field,
  such as `"White, Blue"`, is split on commas and each part is trimmed.
  Each name is looked up in a five-entry table of mana colours, with
  `"#FFF"` as the fallback. The result becomes the stops of the card's
  gradient border, doubled when there is only one colour. The All Decks
  card (`AllDeckCard`) has its own copy of the table and of the code.
- **Delete mode of the All Decks card** (`AllDeckCard`). This is a boolean
  state. A long press on the card face arms it. A tap on the background
  disarms it. In delete mode a trash button calls `onDelete`. A tap on the
  face calls `onPress`, but only when the card is not armed. An effect
  keyed on the mode starts or stops the shake loop, springs the trash
  button in, and gives a haptic pulse. The card is a `class` whose methods
  are the handlers. A pure state machine (`NextMode`, `Fired`) specifies
  it, and `Replay` connects the two.
- **Staged deletion on the All Decks screen** (`DeckList`). The screen
  holds an ordered deck list and a `deletingId` mark. Confirming the alert
  marks the deck at once and starts a 200 ms timer. When the timer fires,
  it removes every deck with that id and clears the mark. All timers have
  the same delay, so the class keeps the started timers as a FIFO queue,
  and `FireTimer` is the explicit step of the oldest one firing.
- **Icon lookup** (`Icons`). A fixed table maps SF Symbol names to
  Material Icons names. An unmapped name draws nothing.

Two helper modules give the ECMAScript built-ins their exact meaning:

- `JsString` models `split` with a one-character separator, its inverse
  `join`, and `trim`. `trim` removes the WhiteSpace and LineTerminator code
  points.
- `JsObject` models `obj[key]` on a plain object literal. A lookup there
  can also find a member inherited from `Object.prototype`.

`Wrappers` holds `Option`.

## Model

| member | source | states |
|---|---|---|
| JsString.Split | components/cards/DeckCard.tsx:54 | `split(",")` gives at least one part, and no part contains the separator |
| JsString.JoinSplit | components/cards/DeckCard.tsx:54 | joining the parts of a split with the separator gives back the original string, so nothing is lost or reordered |
| JsString.SplitJoin | components/cards/DeckCard.tsx:54 | splitting separator-free fields joined by the separator gives back exactly those fields |
| JsString.SplitCount | components/cards/DeckCard.tsx:54 | there is one part per separator, plus one |
| JsString.SplitSingle | components/cards/DeckCard.tsx:54 | the split has a single part iff the string has no separator, and that part is then the whole string |
| JsString.Trim | components/cards/DeckCard.tsx:54 | `c.trim()`: drops the leading, then the trailing, WhiteSpace and LineTerminator code points, never lengthening the string; TrimIsMiddle, TrimIsTrimmed and TrimOfPadded characterise the result completely |
| JsString.TrimIsMiddle | components/cards/DeckCard.tsx:54 | `trim` keeps a contiguous middle of its input and removes only whitespace and line terminators around it |
| JsString.TrimIsTrimmed | components/cards/DeckCard.tsx:54 | the result of `trim` neither starts nor ends with whitespace |
| JsString.TrimOfPadded | components/cards/DeckCard.tsx:54 | a whitespace-free-ended string surrounded by any whitespace trims back to exactly that string |
| JsString.TrimIdempotent | components/cards/DeckCard.tsx:54 | trimming twice is trimming once |
| JsObject.Get | components/cards/DeckCard.tsx:55 | `obj[key]` on an object literal: the own value exactly when the literal defines the key, an inherited member exactly when only `Object.prototype` does, `undefined` otherwise |
| DeckCard.BorderColor | components/cards/DeckCard.tsx:55 | the intended lookup: never empty, always a palette colour or `"#FFF"`, the palette colour for a name the palette defines (non-empty) and `"#FFF"` for any other name |
| DeckCard.BorderColorsIn | components/cards/DeckCard.tsx:54-55 | the intended border list has at least one entry; LookupAll and BorderColorsOfFields give its entries |
| DeckCard.BorderColors | components/cards/DeckCard.tsx:54-55 | a deck's border list has at least one entry, and every entry is one of the five mana colours or `"#FFF"` |
| DeckCard.GradientColors | components/cards/DeckCard.tsx:57-60 | a deck's gradient has at least two stops, and every stop is one of the five mana colours or `"#FFF"` |
| DeckCard.LookupAll | components/cards/DeckCard.tsx:54-55 | one colour per segment, in order, and each is the colour of that segment after trimming |
| DeckCard.BorderColorsOfFields | components/cards/DeckCard.tsx:54-55 | for a `colors` string made of comma-free fields, the border list has one entry per field, in field order, each being the trimmed field's colour |
| DeckCard.BorderColorsCount | components/cards/DeckCard.tsx:54-55 | the border list has as many entries as there are commas, plus one |
| DeckCard.ManaColorOfSegment | components/cards/DeckCard.tsx:55 | a segment gets its table colour exactly when it spells one of White/Blue/Black/Red/Green, case included; otherwise it gets `"#FFF"`; every colour is a table value or `"#FFF"` |
| DeckCard.ColorNamesAreCaseSensitive | components/cards/DeckCard.tsx:14-20 | `"white"` falls back to `"#FFF"`, while `"White"` is `#F8F4E3` |
| DeckCard.GradientIn | components/cards/DeckCard.tsx:57-60 | the gradient has at least two stops, starts with the first border colour, and uses only border colours |
| DeckCard.GradientShape | components/cards/DeckCard.tsx:57-60 | the gradient is the border list unchanged iff `colors` contains a comma; without one it is the single trimmed colour twice |
| DeckCard.TwoColorGradient | components/cards/DeckCard.tsx:54-59 | a two-field `colors` gives exactly the two fields' colours, in order |
| DeckCard.SingleColorGradient | components/cards/DeckCard.tsx:54-60 | one unpadded colour name gives that name's colour twice |
| DeckCard.EmptyColorsGradient | components/cards/DeckCard.tsx:54-60 | an empty `colors` gives the border `["#FFF"]` and the gradient `["#FFF", "#FFF"]` |
| DeckCard.BorderColorAsWritten | components/cards/DeckCard.tsx:55 | `palette[c] \|\| "#FFF"` as written: an inherited member comes out exactly for an `Object.prototype` name the palette lacks, and any string that comes out is the intended colour |
| DeckCard.LookupAllAsWritten | components/cards/DeckCard.tsx:54-55 | as written, one value per segment |
| DeckCard.BorderColorsAsWritten | components/cards/DeckCard.tsx:54-55 | as written, the border list has one value per comma-separated field, at least one |
| DeckCard.GradientAsWritten | components/cards/DeckCard.tsx:57-60 | as written, the gradient has at least two stops, all taken from the as-written border list |
| DeckCard.AsWrittenAgreesOffPrototype | components/cards/DeckCard.tsx:55 | for every segment that is not an `Object.prototype` member name, the lookup as written equals the intended lookup |
| DeckCard.AsWrittenAgreesOnOrdinaryDecks | components/cards/DeckCard.tsx:54-55 | when no field trims to an `Object.prototype` name the palette lacks, the border list as written is, entry by entry, the intended one |
| DeckCard.PrototypeNameLeaks | components/cards/DeckCard.tsx:54-55 | as written, a field that trims to an `Object.prototype` member name puts that member into the border list instead of a colour |
| DeckCard.ConstructorDeckBorder | components/cards/DeckCard.tsx:54-55 | as written, `colors == "constructor"` gives the border list `[Object.prototype.constructor]` and the gradient with that function as both stops |
| AllDeckCard.GradientColors | components/cards/AllDeckCard.tsx:140-146 | the All Decks card's copy of the table and code gives, for every deck, the same gradient as the home card, with at least two stops |
| AllDeckCard.Rendered | components/cards/AllDeckCard.tsx:167-213 | the background and the trash button are rendered exactly in delete mode, the face with its tap and long press exactly outside it |
| AllDeckCard.NextMode | components/cards/AllDeckCard.tsx:167-213 | a gesture changes the mode exactly when it is a long press outside delete mode or a background tap inside it |
| AllDeckCard.Fired | components/cards/AllDeckCard.tsx:167-213 | at most one callback per gesture; `onPress(deck)` exactly for a tap outside delete mode, `onDelete(deck)` exactly for a trash tap inside it |
| AllDeckCard.Transitions | components/cards/AllDeckCard.tsx:167-213 | a tap is ignored in delete mode and otherwise calls `onPress` with the card's deck, without changing the mode; a long press arms; a background tap disarms; a trash tap calls `onDelete` with the card's deck and keeps the mode; each gesture fires at most one callback |
| AllDeckCard.ModeAfterIsArmed | components/cards/AllDeckCard.tsx:167-213 | after any gesture sequence from mount, the card is in delete mode iff there was a long press with no background tap after it |
| AllDeckCard.CallbackAt | components/cards/AllDeckCard.tsx:167-213 | the k-th gesture fires what the transition table gives for the mode left by the gestures before it |
| AllDeckCard.GestureCallbacks | components/cards/AllDeckCard.tsx:167-213 | gesture k calls `onDelete(deck)` iff it is a trash tap on an armed card, and `onPress(deck)` iff it is a tap on an unarmed card; nothing else is ever called |
| AllDeckCard.Card.constructor | components/cards/AllDeckCard.tsx:41-45 | a card mounts outside delete mode, with the shake and the trash scale at rest at 0 and no haptic pulse |
| AllDeckCard.Card.DeleteModeEffect | components/cards/AllDeckCard.tsx:96-137 | entering delete mode gives one haptic pulse, starts the shake loop, and sets the trash scale to 0 before springing it toward 1; leaving stops the shake and sets both values to 0 |
| AllDeckCard.Card.SetDeleteMode | components/cards/AllDeckCard.tsx:96-137 | sets the mode; the effect runs only when the value changes, so setting the current value changes nothing |
| AllDeckCard.Card.AnimatePress | components/cards/AllDeckCard.tsx:78-93 | in delete mode a tap does nothing; otherwise it calls `onPress` with the card's own deck |
| AllDeckCard.Card.HandleLongPress | components/cards/AllDeckCard.tsx:169-172 | a long press leaves the card in delete mode, with a haptic pulse only if it was not armed before |
| AllDeckCard.Card.HandleBackgroundTap | components/cards/AllDeckCard.tsx:197-200 | a background tap leaves the card out of delete mode, with both animated values back at 0 |
| AllDeckCard.Card.HandleTrashTap | components/cards/AllDeckCard.tsx:206-207 | a trash tap calls `onDelete` with the card's deck |
| AllDeckCard.Card.Dispatch | components/cards/AllDeckCard.tsx:167-213 | a gesture reaches only the widget rendered in the current mode; the new mode and the callback are those of the transition table, and the effect invariant is kept |
| AllDeckCard.Replay | components/cards/AllDeckCard.tsx:167-213 | mounting a card and delivering a gesture sequence fires exactly the callbacks the state machine predicts, and leaves the mode it predicts |
| DeckList.InitialIds | app/decks/index.tsx:21-43 | the starter list `INITIAL_DECKS` holds decks "1", "2" and "3", in that order |
| DeckList.MonoRedGradient | app/decks/index.tsx:36-42 | the Mono-Red starter deck's gradient is red twice |
| DeckList.RemoveId | app/decks/index.tsx:62 | a deck survives the filter iff it was in the list and has a different id; the list never grows |
| DeckList.RemoveIdAppend | app/decks/index.tsx:62 | the filter works piecewise over concatenation, so the survivors keep their relative order |
| DeckList.RemoveIdCounts | app/decks/index.tsx:62 | every deck with the id is removed, and every other deck is kept as many times as it occurred |
| DeckList.RemoveAbsentId | app/decks/index.tsx:62 | removing an id that no deck has leaves the list unchanged |
| DeckList.RemoveIdIdempotent | app/decks/index.tsx:62 | removing the same id twice equals removing it once |
| DeckList.RemoveIdCommutes | app/decks/index.tsx:61-64 | two staged removals give the same list in either firing order |
| DeckList.RemoveUniqueId | app/decks/index.tsx:62 | with unique ids, removing a present id drops exactly one deck and keeps the ids unique |
| DeckList.UniqueAfterRemove | app/decks/index.tsx:62 | removal keeps ids unique |
| DeckList.MarkedDeleting | app/decks/index.tsx:89 | `isDeleting` of a card: no card is marked when no deletion is staged, and a marked card's id is the staged id |
| DeckList.MarkedShareId | app/decks/index.tsx:89 | any two cards marked as deleting have the same id, so at most one id is marked at a time |
| DeckList.DeckListScreen.constructor | app/decks/index.tsx:46-47 | the screen starts with the starter decks, no mark and no pending timer |
| DeckList.DeckListScreen.DeleteDeck | app/decks/index.tsx:49-60 | Cancel changes nothing; Delete marks the deck's id and queues its removal, leaving the list unchanged |
| DeckList.DeckListScreen.FireTimer | app/decks/index.tsx:61-64 | the oldest pending timer removes every deck with its id and clears the mark, whatever id the mark held; with no timer pending, nothing changes |
| DeckList.DeckListScreen.IsDeleting | app/decks/index.tsx:89 | on the screen, a card marked as deleting has its removal pending, as the latest removal started |
| DeckList.OverlappingDeletions | app/decks/index.tsx:58-64 | confirming decks "1" and "2" before any timer fires, then firing one timer, leaves decks "2" and "3", no mark, and deck "2"'s removal still pending |
| DeckList.BackChevronDrawsNothing | app/decks/index.tsx:76 | the header's `"chevron.left"` back icon has no mapping, so it draws nothing |
| Icons.IconSymbol | components/ui/icon-symbol.tsx:34-59 | an icon is drawn iff the name is a key of the table; it is then the mapped Material name, at the given size or 24, in the given colour |
| Icons.EveryMappingIsMaterial | components/ui/icon-symbol.tsx:20-27 | every entry of the six-entry table `MAPPING` names the Material Icons library |
| Icons.SizeDefaultsTo24 | components/ui/icon-symbol.tsx:36 | with no size given, a mapped icon is drawn at 24 |
| Icons.PrototypeNamesDrawNothing | components/ui/icon-symbol.tsx:47-49 | the names inherited from `Object.prototype` draw nothing, because the `lib` check rejects them |
| Icons.HouseIsHome | components/ui/icon-symbol.tsx:21 | `"house.fill"` is drawn as the Material `"home"` icon |

## Left out

- Animation timelines are not modelled: durations, easing, springs and interpolation are floating-point values run by the framework. Only the discrete state they are keyed on is kept (`Animation`: at rest, springing toward a target, or looping).
- The `appearAnim` fade-in and the fade and shrink run when the parent sets `isDeleting` (components/cards/AllDeckCard.tsx:47-75) are animation only, and are left out. `isDeleting` itself is modelled as `DeckListScreen.IsDeleting`.
- Haptics are modelled only as a count of pulses.
- AllDeckCard.Card.AnimatePress: `onPress` runs when the press animation finishes. The model returns it at once, because animation timing is left out.
- `onPress` and `onDelete` are optional props called with `?.`. The model always reports the call; an absent prop would make it do nothing.
- The native alert dialog is modelled as the user's `Cancel`/`Delete` answer, passed to `DeleteDeck`.
- The 200 ms `setTimeout` is modelled as the FIFO queue `pendingRemovals`, with `FireTimer` as the step. Real time, unmounting before a timer fires, and interleaving with rendering are left out.
- The `console.log` in the screen's `onPress` handler and `router.back()` are I/O and navigation, and are left out.
- Rendering, layout and styling are left out: JSX, `StyleSheet`, `LinearGradient`, and the icon's `style` and `weight` props.
- The home screen, the carousel, `AddDeckCard`, the other UI components and the layouts are not part of this model.
- The iOS icon component, which draws SF Symbols natively, is not part of this model.
- JavaScript strings are UTF-16 code units; the model uses Unicode characters. The difference matters only for characters outside the Basic Multilingual Plane, which are never separators or whitespace.
- The home card's `animatePress` (components/cards/DeckCard.tsx:34-49) is animation plus a callback, and is left out.

## Findings

| source | as written | input that shows it | evidently intended | confidence | as-written member | corrected member |
|---|---|---|---|---|---|---|
| components/cards/DeckCard.tsx:55 (same code at components/cards/AllDeckCard.tsx:141) | `MANA_COLORS[c] \|\| "#FFF"` on a plain object literal, so a name that `Object.prototype` defines (`constructor`, `toString`, `valueOf`, ...) yields that inherited function, which is truthy, instead of the fallback | a deck whose `colors` is `"constructor"` (or `"Red, toString"`) | every name outside the five mana colours gets `"#FFF"` | not executed | DeckCard.ConstructorDeckBorder, DeckCard.PrototypeNameLeaks | DeckCard.ManaColorOfSegment (on DeckCard.BorderColor, which the rest of the model uses) |
