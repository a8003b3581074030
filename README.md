# Cellular automata sandbox — a verified model of the engine

This project models the core of a binary cellular-automaton sandbox. The
program runs a grid of 0/1 cells on a torus and steps it through a
randomly generated rule table. Each cell's neighbourhood, a `w` by `h` box
of offsets around the cell, is packed into an integer key. The cell's next
state is the value the first rule table holds for that key. Around the
engine, the interactive front end keeps:

- a bounded history of grid snapshots;
- six text inputs that it sanitises and parses;
- a clamp that keeps the neighbourhood at no more than 16 cells.

A separate example program runs Conway's Life (B3/S23) on a fixed 256 by
144 torus.

The modules follow the source files:

| module | file | source |
|---|---|---|
| `Common`, `Config` | `common.dfy` | integer widths, `gen_bool`, `f32::clamp`, `MAX_NEIGHBORHOOD_BITS` (`src/config.rs`) |
| `Rules` | `rules.dfy` | `src/rules.rs`: `HashRule` and `RulesCollection` |
| `Spawning` | `spawning.dfy` | the `gen_bool(p)` fill loop shared by both `randomize` methods |
| `AutomataEngine` | `automata.dfy` | `src/automata.rs`: offsets, neighbourhood key, double-buffered step |
| `GameModel` | `game.dfy` | `src/game.rs`: clamp, history, parser, sanitiser, `rebuild`'s settings |
| `ExampleLife` | `examplelife.dfy` | `src/exampleMain.rs`: Life with a scratch buffer |

**Randomness.** The generator (`SmallRng`) is a finite sequence of `u64`
words plus a position. Methods that draw from it take the sequence and a
position, and return where they stopped.

- `gen::<u64>()` reads one word.
- `gen_bool(p)` reads one word `w` and fires when `w < floor(p * 2^64)`. When `p == 1`, it fires without reading a word. This follows the rand crate's Bernoulli sampler.
- `fill_random` stops when the supply runs out. Its contracts say what holds in each case: a full table, or an exhausted supply.

**Panics.** Panics that the code can reach become preconditions:

- `1 << (w * h)` needs `w * h < 64`.
- `<< cell_index` needs at most 64 offsets.
- `gen_bool` needs `0 <= p <= 1`.

**Classes.** Objects whose fields the source updates in place are classes:
`HashRule`, `RulesCollection`, `Automata` (twice) and `Game`. Grids are
arrays, the rule tables maps, the history and the rule list sequences.
Each imperative method is proved against a specification function. The
properties the source promises are proved as lemmas about those functions.

## Model

| member | source | states |
|---|---|---|
| Common.GenBoolBounds | src/automata.rs:80-88 | `gen_bool(0)` never fires, `gen_bool(1)` always fires, and a larger chance fires on every word a smaller one does |
| Common.Clamp01 | src/automata.rs:100-102 | `clamp(p, 0, 1)` lies in `[0, 1]`, is `p` when `p` is already there, and 0 or 1 beyond either end |
| Rules.KeyMask | src/rules.rs:46-52 | the mask is `2^bits - 1` below 64 bits and `u64::MAX` from 64 bits on |
| Rules.MaskKey | src/rules.rs:56 | a masked key is at most the mask, and a key already within the mask is unchanged |
| Rules.OrInsert | src/rules.rs:56-58 | one iteration of the fill loop: the drawn word masked to a key, and the coin from the next word inserted only if the key is absent; `OrInsertFacts` states its effect |
| Rules.OrInsertFacts | src/rules.rs:56-58 | `or_insert` adds the drawn key, never overwrites a present key, and gives a new key the coin |
| Rules.FillFrom | src/rules.rs:54-59 | the whole fill loop from a given table and word position: keys are inserted until the table holds `num_keys` keys or fewer than two words remain; `pos <= next <= |words|`, and the lemmas below state the table it leaves |
| Rules.FillWithin | src/rules.rs:45-60 | every key the fill writes is at most the mask, and every value is 0 or 1 |
| Rules.FillKeepsExisting | src/rules.rs:55-59 | a key already in the table keeps its value through the whole fill |
| Rules.FillSize | src/rules.rs:55-59 | the fill never shrinks the table and never passes `num_keys`; if it stops short, the supply ran out |
| Rules.FullTableFitsMask | src/rules.rs:55 | a table of masked keys has at most `mask + 1` entries, so the loop ends only if `num_keys <= mask + 1` |
| Rules.FullTableIsTotal | src/rules.rs:101-109 | a table of `2^bits` distinct keys below `2^bits` contains every key below `2^bits` |
| Rules.FillOutcome | src/rules.rs:45-60 | after a fill from empty: keys masked, values 0/1, at most `num_keys` entries, and `num_keys <= mask + 1` if full, else the supply ran out |
| Rules.FullFillIsTotal | src/rules.rs:101-109 | a full fill of `2^(w*h)` keys answers every key below `2^(w*h)` |
| Rules.FirstMatch | src/rules.rs:111-118 | `get_new_cell` on the rules' tables in list order: the first table holding the key decides, else 0; the three lemmas below state it |
| Rules.FirstMatchMiss | src/rules.rs:111-118 | `get_new_cell` is 0 when no rule has the key |
| Rules.FirstMatchIsFirst | src/rules.rs:111-118 | `get_new_cell` returns the value of the first rule in list order that has the key |
| Rules.FirstMatchBinary | src/rules.rs:111-118 | with 0/1 tables, `get_new_cell` is 0 or 1 |
| Rules.FilledInTurnIsFillEach | src/rules.rs:106-108 | rules filled in turn from one generator are the fills of each rule, chained position to position |
| Rules.FilledInTurnWithin | src/rules.rs:106-108 | every table of a collection filled in turn is masked, 0/1 and no larger than `num_keys` |
| Rules.HashRule.constructor | src/rules.rs:24-30 | a new rule has an empty table and the given dimensions |
| Rules.HashRule.Apply | src/rules.rs:18-20 | `Some(v)` exactly when the key is mapped to `v`, `None` otherwise |
| Rules.HashRule.SetNeighborhoodSize | src/rules.rs:32-35 | only the dimensions change; the table is unchanged |
| Rules.HashRule.AddMapping | src/rules.rs:37-39 | the key now maps to the value, and every other key answers as before |
| Rules.HashRule.Reset | src/rules.rs:41-43 | the table is empty and every lookup misses |
| Rules.HashRule.FillRandom | src/rules.rs:45-60 | the table is the fill from the generator; keys are masked and values 0/1; the loop ends full or with the supply spent |
| Rules.RulesCollection.constructor | src/rules.rs:71-81 | exactly one rule, of the given dimensions, filled with `2^(w*h)` keys from the collection's own generator |
| Rules.RulesCollection.AddRule | src/rules.rs:83-85 | the rule is appended at the end of the list |
| Rules.RulesCollection.Randomize | src/rules.rs:101-109 | each rule in list order is refilled with `2^(w*h)` keys from where the previous one stopped; the dimensions are kept |
| Rules.RulesCollection.SetNeighborhoodSize | src/rules.rs:87-99 | the collection and every rule take the new dimensions, then every rule is refilled in turn |
| Rules.RulesCollection.GetNewCell | src/rules.rs:111-118 | the result is the first-match lookup over the rules' tables |
| Spawning.Spawned | src/automata.rs:80-88 | the buffer `randomize` writes has one 0/1 cell per generator word |
| Spawning.SpawnedBounds | src/automata.rs:80-88 | chance 0 spawns nothing, chance 1 fills everything, and a larger chance keeps every cell a smaller one spawns |
| Spawning.SpawnInto | src/automata.rs:80-88 | every cell in order gets `gen_bool(p)` from the next word; one word per cell, none when `p == 1` |
| AutomataEngine.AxisStart | src/automata.rs:28-30 | the first offset of an axis of `n` cells, `-((n - 1) / 2)` with Rust's truncating division; `AxisStartTruncates` states it |
| AutomataEngine.AxisEnd | src/automata.rs:29-31 | the last offset of an axis of `n` cells, inclusive: `n / 2` |
| AutomataEngine.AxisStartTruncates | src/automata.rs:28-31 | the start offset uses Rust's truncating division, so an empty axis starts at 0 |
| AutomataEngine.AxisSpan | src/automata.rs:28-33 | the range `start ..= end` holds `n` offsets for `n >= 1`, and one for `n == 0` |
| AutomataEngine.Offsets | src/automata.rs:27-36 | the offset list of a `w` by `h` neighbourhood, column by column with `dy` varying fastest; `OffsetsCount`, `OffsetsAreBox` and `OffsetsDistinct` state its shape |
| AutomataEngine.OffsetsCount | src/automata.rs:27-36 | `w * h` offsets for `w, h >= 1` |
| AutomataEngine.OffsetsAreBox | src/automata.rs:27-36 | an offset is in the list exactly when `dx` is in `-(w-1)/2 ..= w/2` and `dy` in `-(h-1)/2 ..= h/2` |
| AutomataEngine.OffsetsDistinct | src/automata.rs:27-36 | no offset appears twice |
| AutomataEngine.PushOffsets | src/automata.rs:32-36 | the loops push `(dx, dy)` for every `dx` in `startX ..= endX` and, inside, every `dy` in `startY ..= endY`, in that order |
| AutomataEngine.BuildOffsets | src/automata.rs:27-36 | the nested push loops build the offsets column by column, `dy` varying fastest |
| AutomataEngine.OrFold | src/automata.rs:112-114 | the fold `acc \| (state << i)` over the neighbour states, with each shift `i < 64` dropping the bits past bit 63 as a `u64` shift does; the result fits a `u64`. A shift of 64 or more panics in Rust; `Automata.Step` requires at most 64 offsets, which excludes it |
| AutomataEngine.OrFoldIsPackBits | src/automata.rs:104-115 | on 0/1 cells, the OR of the shifted states equals the binary number whose bit `i` is state `i` |
| AutomataEngine.PackBitsBit | src/automata.rs:112-114 | bit `i` of the packed key is state `i`, and bits past the list are 0 |
| AutomataEngine.PackBitsBound | src/automata.rs:104-115 | a packed key of `n` states is below `2^n` |
| AutomataEngine.NeighborIndex | src/automata.rs:109-111 | the wrapped neighbour index lies in the grid, at column `(x + dx) mod w` and row `(y + dy) mod h` |
| AutomataEngine.NeighborhoodKey | src/automata.rs:104-115 | `get_neighborhood_hash(x, y)`: the fold over the states at the wrapped offsets; `KeyLayout` states its bits |
| AutomataEngine.KeyLayout | src/automata.rs:104-115 | the key is below `2^(offsets)`; bit `i` is the state of the cell at wrapped offset `i`; higher bits are 0 |
| AutomataEngine.CellIndex | src/automata.rs:62 | `x + y * w` lies in the grid and decodes back to `(x, y)` |
| AutomataEngine.NextCell | src/automata.rs:62-64 | the next state of cell `(x, y)`: the first-match lookup of its neighbourhood key |
| AutomataEngine.NextCells | src/automata.rs:59-66 | the whole next grid, cell `x + y * w` holding `NextCell(x, y)`, computed from the old grid alone; same length as the old grid |
| AutomataEngine.NextCellsBinary | src/automata.rs:59-68 | with 0/1 rule outputs, the next grid is 0/1 |
| AutomataEngine.NextCellLocal | src/automata.rs:59-68 | a cell's next state depends only on the cells at its offsets |
| AutomataEngine.FirstTableDecides | src/automata.rs:63-64 | with a table of all `2^(offsets)` keys first, every cell's next state is that table's entry for its key |
| AutomataEngine.FilledEngineUsesFirstRule | src/automata.rs:38-64 | in an engine whose first rule was just filled with `2^(w*h)` patterns on a supply that did not run out, every cell's key on `Offsets(w, h)` is in that rule's table, which decides the cell whatever rules follow |
| AutomataEngine.NewRules | src/automata.rs:38-41 | a fresh collection holding one rule of the engine's size, 0/1, whose table is the fill of `2^(w*h)` keys from the engine's generator |
| AutomataEngine.NewGrid | src/automata.rs:45-46 | two distinct fresh buffers of `w * h` cells: the spawned grid and an all-zero second buffer |
| AutomataEngine.Automata.constructor | src/automata.rs:20-57 | offsets built, one rule filled from the engine's generator, grid spawned from the words that follow, second buffer all zero |
| AutomataEngine.Automata.StepCell | src/automata.rs:62-64 | one cell of the second buffer gets `get_new_cell` of its key; no other cell changes |
| AutomataEngine.Automata.StepAll | src/automata.rs:60-66 | the second buffer holds the next grid, computed from the old cells only |
| AutomataEngine.Automata.Step | src/automata.rs:59-69 | the buffers are swapped; the grid is the next grid; the second buffer is all zero; sizes and 0/1 are kept |
| AutomataEngine.Clear | src/automata.rs:68 | every cell of the buffer is 0 |
| AutomataEngine.Automata.Cells | src/automata.rs:71-73 | a copy of the grid, 0/1 and `w * h` long; nothing changes |
| AutomataEngine.Automata.RandomizeRules | src/automata.rs:75-78 | the rules are refilled in turn from the engine's generator; the buffers are untouched |
| AutomataEngine.Automata.Randomize | src/automata.rs:80-88 | the grid is respawned from the generator; only the grid and the generator move |
| AutomataEngine.Automata.RandomizeNext | src/automata.rs:90-98 | the second buffer is respawned; the grid is unchanged |
| AutomataEngine.Automata.SetSpawnChance | src/automata.rs:100-102 | the chance becomes `clamp(p, 0, 1)` |
| GameModel.Max1 | src/game.rs:119-120 | `max(v, 1)` is at least 1 and at least `v`, and is `v` when `v >= 1` |
| GameModel.Shrunk | src/game.rs:124-132 | the shrinking loop with an unbounded product: shrink the width while it is at least the height and above 1, else the height, until the product fits or both are 1; `ShrunkBounds` and `ShrunkShape` state its result |
| GameModel.Clamped | src/game.rs:117-134 | `clamp_neighborhood_to_limit`: both sides raised to 1, then `Shrunk` to 16 cells; `ClampNeighborhoodToLimit` states its result |
| GameModel.ShrunkBounds | src/game.rs:124-132 | both sides stay at least 1, neither grows, and the product fits a ceiling of at least 1 |
| GameModel.ShrunkShape | src/game.rs:125-128 | ties shrink the width first: a shrunk side ends no smaller than the other, less one for the width |
| GameModel.ClampNeighborhoodToLimit | src/game.rs:117-134 | sides at least 1 and at most requested, product at most 16, unchanged exactly when the request fits |
| GameModel.ShrunkWrapping | src/game.rs:124 | the shrinking loop with the product wrapping modulo `2^64` |
| GameModel.WrappingClampAcceptsHugeNeighborhood | src/game.rs:121-124 | with wrapping, a `2^32` by `2^32` request passes unchanged although it exceeds 16 |
| GameModel.DigitValue | src/game.rs:183 | an ASCII digit's value is below 10 and renders back to the digit |
| GameModel.Value | src/game.rs:183 | the number a digit string denotes, most significant digit first; `ValueOfDecimal`, `ValuePositive` and `DecimalOfValue` relate it to `ToDecimal` |
| GameModel.ToDecimal | src/game.rs:172-176 | `usize::to_string`: the decimal digits of a number, without leading zeros; `DecimalShape` and `ValueOfDecimal` state it |
| GameModel.DecimalShape | src/game.rs:172-176 | `to_string` is a nonempty digit string that starts with `0` only for zero |
| GameModel.ValueOfDecimal | src/game.rs:172-176 | reading a rendered number gives the number back |
| GameModel.ValuePositive | src/game.rs:183 | a digit string without a leading zero reads as at least 1 |
| GameModel.DecimalOfValue | src/game.rs:182-183 | a digit string without a leading zero is the rendering of its value |
| GameModel.TrimStart | src/game.rs:182 | `trim_start` removes exactly the leading whitespace |
| GameModel.TrimEnd | src/game.rs:182 | `trim_end` removes exactly the trailing whitespace |
| GameModel.Trim | src/game.rs:182 | `trim`: `TrimEnd` of `TrimStart`; `TrimPadded` states what it removes |
| GameModel.TrimPadded | src/game.rs:182 | trimming a text padded with whitespace gives back the text |
| GameModel.ParseUsize | src/game.rs:183-184 | `parse::<usize>().ok()`: `Some(value)` for an optional `+` followed by a nonempty digit string whose value fits in `usize`, `None` otherwise; `ParseDigits` states it |
| GameModel.Parse | src/game.rs:181-187 | the result is the fallback, or a positive number that the trimmed text parses to |
| GameModel.ParseRendered | src/game.rs:181-187 | a rendered positive number, with any whitespace around it, parses back to itself |
| GameModel.ParseDigits | src/game.rs:181-187 | a digit-only text parses to its value when that is in `1 ..= usize::MAX`, and to the fallback otherwise (empty, zero, overflow) |
| GameModel.Retain | src/game.rs:243-250 | `retain` keeps only accepted characters and never lengthens the text |
| GameModel.RetainAllKept | src/game.rs:243-250 | a text of accepted characters is unchanged |
| GameModel.RetainIdempotent | src/game.rs:242-251 | sanitising twice is sanitising once |
| GameModel.RetainAppend | src/game.rs:243-250 | retaining works piece by piece, so the kept characters keep their order |
| GameModel.RetainCounts | src/game.rs:243-250 | every accepted character is kept as often as it occurs, and every other one is dropped |
| GameModel.Hundredths | src/game.rs:177 | `p * 100` rounded to a whole number of hundredths: at most 100, and at most 0.5 away from `p * 100` |
| GameModel.FormatChance | src/game.rs:177 | `format!("{:.2}")` of a chance in `[0, 1]`: the hundredths written as one digit, a point and two digits; `ChanceShape` and `RenderedTextsAreSanitized` state it |
| GameModel.ChanceShape | src/game.rs:177 | `format!("{:.2}")` of a chance is a digit, a point and two digits that read as its rounded hundredths |
| GameModel.Push | src/game.rs:77-82 | the snapshot is the newest history entry |
| GameModel.PushFifo | src/game.rs:77-82 | a full history keeps its length, anything else grows by one, and the older entries are the newest of the old ones |
| GameModel.HistoryIsWindow | src/game.rs:77-82 | any run of pushes leaves the newest `history_length` of all entries |
| GameModel.InitLayout | src/game.rs:84-89 | after `init`, exactly `history_length` frames: blank ones, then the snapshot last |
| GameModel.Game.constructor | src/game.rs:33-75 | settings stored unclamped, their texts rendered, history initialised |
| GameModel.Game.AddHistory | src/game.rs:77-82 | the history is the old one with the snapshot pushed; frames keep their size and stay 0/1 |
| GameModel.Game.Init | src/game.rs:84-89 | the history is the blank frames with the snapshot pushed |
| GameModel.Game.Rebuild | src/game.rs:136-178 | sizes and history length at least 1, neighbourhood clamped, chance clamped, history reset, texts rendered from the new settings |
| GameModel.Game.Configure | src/game.rs:145-152 | stores the six settings `rebuild` has already raised to 1 and clamped; nothing else changes |
| GameModel.Game.RenderInputs | src/game.rs:172-177 | each input text is the rendering of its setting |
| GameModel.Game.ApplyInputs | src/game.rs:180-211 | each setting is the parsed text or the old value, then clamped by `rebuild` |
| GameModel.Game.SanitizeInputs | src/game.rs:242-251 | digits only in the five integer texts, digits and `.` in the chance text |
| GameModel.RenderedTextsAreSanitized | src/game.rs:172-177 | the texts `rebuild` renders are unchanged by sanitising |
| ExampleLife.Wrap | src/exampleMain.rs:49-50 | the wrapped coordinate lies on the axis, and a zero move stays put |
| ExampleLife.WrapCases | src/exampleMain.rs:49-50 | moving off either end lands on the other end |
| ExampleLife.NeighbourIndex | src/exampleMain.rs:49-51 | the index `ny * 256 + nx` of the neighbour at `(dx, dy)`, both coordinates wrapped; it lies inside the grid |
| ExampleLife.NeighbourIndexInjective | src/exampleMain.rs:44-51 | the cell and its eight neighbours are nine different cells |
| ExampleLife.LiveCount | src/exampleMain.rs:43-53 | the sum the `dy`/`dx` loops accumulate, in loop order, skipping the centre; `LiveCountIsMoore` and `LiveCountBound` state it |
| ExampleLife.LiveCountIsMoore | src/exampleMain.rs:43-53 | the loops' count is the number of live cells among the eight Moore neighbours |
| ExampleLife.MooreDistinct | src/exampleMain.rs:44-51 | the eight neighbours are distinct, and none is the cell itself |
| ExampleLife.LiveCountBound | src/exampleMain.rs:43-53 | on a 0/1 grid, `live` is at most 8 |
| ExampleLife.PartialLiveBounds | src/exampleMain.rs:43-51 | the partial sums stay small, so the `u8` accumulator cannot overflow |
| ExampleLife.NextState | src/exampleMain.rs:54-61 | the three-armed rule on a cell and its live count; `NextStateIsB3S23` states it |
| ExampleLife.NextStateIsB3S23 | src/exampleMain.rs:55-61 | the next state is 0/1, and alive exactly when `live == 3`, or `live == 2` on a live cell |
| ExampleLife.NextCell | src/exampleMain.rs:42-62 | the next state of cell `i`, at column `i % 256` and row `i / 256`: `NextState` of the cell and its `LiveCount` |
| ExampleLife.NextGrid | src/exampleMain.rs:39-65 | the next grid has the same size and is 0/1 |
| ExampleLife.EmptyGridStaysEmpty | src/exampleMain.rs:55-61 | a grid with no live cell stays without one |
| ExampleLife.CountLive | src/exampleMain.rs:43-53 | the nested `dy`/`dx` loops compute the live-neighbour count |
| ExampleLife.AddRow | src/exampleMain.rs:45-52 | one row of the `dx` loop adds that row's live neighbours, skipping the cell itself |
| ExampleLife.SpawnThreshold | src/exampleMain.rs:30-32 | `gen_bool(0.2)` on the `f64` literal fires exactly on the words below 3689348814741910528 |
| ExampleLife.Automata.constructor | src/exampleMain.rs:27-37 | the grid is spawned with `gen_bool(0.2)` on the exact `f64` value of 0.2, one word per cell, and the scratch buffer is a copy of it |
| ExampleLife.Automata.Step | src/exampleMain.rs:39-66 | the grid is the next grid of the old grid only, and the scratch buffer equals it |
| ExampleLife.Automata.Randomize | src/exampleMain.rs:68-73 | the grid is respawned with `gen_bool(0.2)` on the exact `f64` value of 0.2 from a fresh generator; sizes and 0/1 are kept |

## Left out

- Graphics, windowing, keyboard input, frame timing and the `main` loops are left out. They are calls into macroquad and I/O.
- `SmallRng::from_entropy` and the generator's own algorithm are left out. A generator is a finite sequence of words given by the caller, so a fresh generator is a parameter.
- The probability that a draw fires is not modelled. Only which draws fire is.
- `fill_random` on a supply too short to fill the table stops early instead of drawing forever. Its contracts state both outcomes.
- `HashMap` iteration order and hashing are left out. A table is a `map`.
- The call sites at `src/automata.rs:40-41` and `:76-77` pass arguments that `src/rules.rs:71` and `:101` do not accept. The model follows the evident intent: the collection holds the neighbourhood size, and `randomize` fills `2^(w*h)` keys from the generator it is given.
- `Rules.RulesCollection.constructor`: draws from its own word sequence, which stands for the collection's private `from_entropy` generator.
- `Spawning.Spawned`: the chance is a real number. `gen_bool` compares the word against `floor(p * 2^64)`, where `p` is the `f64` it receives. The model matches this exactly only when the caller passes that exact value. `ExampleLife.SPAWN_CHANCE` is the exact value of the `f64` literal 0.2, and the 0.5 of `src/rules.rs:57` is exact. In the engine, the chance is an `f32` widened by `spawn_chance as f64` (`src/automata.rs:82`, `:92`), so callers must pass the exact `f32` value. A decimal such as 0.2 would be off by up to about 2^39 words of threshold near 1.0: 54,975,581,389 words at 0.2.
- NaN and infinite chances are left out (reals have neither). `Common.Clamp01` is `f32::clamp` on reals.
- `GameModel.Hundredths`: `format!("{:.2}")` rounds the decimal expansion of the `f32` value. The model rounds the real value, ties to even. The two can differ on values whose `f32` representation lies just beside a tie.
- `apply_inputs`' `parse_f32` is float parsing. Its result is the parameter `parsedChance` of `GameModel.Game.ApplyInputs`.
- The engine, the image and the texture held by `Game` are left out. The engine's grid is the `snapshot` parameter of the history methods.
- The engine calls in `reset` (`randomize_rules`, `randomize`) and the timer reset are left out of `GameModel.Game.Init`. The engine's side is modelled by `AutomataEngine.Automata.RandomizeRules` and `Randomize`.
- `Game::new` with `history_length == 0` never evicts (`len() == 0` only holds while empty). This is modelled as written, and `GameModel.Game.Valid` bounds the history only when `history_length >= 1`.
- `GameModel.Game.Rebuild`: the image height `(grid_h * history_length) as u16` truncation is left out, along with the image itself.
- `src/main.rs` and the constants of `src/config.rs` other than `MAX_NEIGHBORHOOD_BITS` are left out. They are wiring.
- Integer widths: `GameModel.Game` holds its sizes as `u64` (for `usize`). `AutomataEngine.Automata`, `Rules.HashRule` and `Rules.RulesCollection` hold theirs as unbounded `nat`. So `grid_w * grid_h` (`src/automata.rs:45-46`) and `neighborhood_w * neighborhood_h` (`src/rules.rs:46`, `src/rules.rs:88-97`) cannot overflow in the model. In the source such a product overflows, which panics in a debug build and wraps in a release build. The products `rebuild` passes are bounded by the clamp (16 cells) and by the memory a grid needs. The only wrap-around the model tracks is the clamp's product, under Findings.

## Findings

| source | as written | input that shows it | evidently intended | confidence | as-written member | corrected member |
|---|---|---|---|---|---|---|
| src/game.rs:121-124 | `w * h` on `usize` overflows. Release builds wrap it modulo `2^64`; debug builds panic. | neighbourhood inputs `4294967296` and `4294967296`: the product wraps to 0, so the clamp returns them unchanged | the clamp keeps `w * h <= 16` for every request | not executed | GameModel.ShrunkWrapping, GameModel.WrappingClampAcceptsHugeNeighborhood | GameModel.ClampNeighborhoodToLimit, GameModel.ShrunkBounds |
