# readarg / readopt parsing engine in Dafny

This project models the argv parser of readarg as verified Dafny. The parser
exists in two near-identical versions: `readarg.h`, a single header that
records errors in a field, and `readopt.c`, an older version that returns a
status with each answer. It parses a token array (argv without the program
name) against two declaration tables.

- **Options.** Each option has short and long names. A flag takes no value; a
  value-taking option (`req`) takes one. Each option has an interval of
  allowed occurrence counts.
- **Operands.** Slots, each with an interval of allowed token counts.

Parsing happens in place. The values of options and the intermediate operands
are moved to the front of the token array. Each option's value view, and the
intermediate-operand view `ioper`, point into that front part. After the last
token the operands are dealt out over the operand slots.

The model has these layers:

- `Decl` holds the declarations and the pure helpers: `select_upper`,
  `select_lower`, `validate_within`, `validate_opt` and `validate_arg`.
- `Matcher` holds `match_opt` and `skip_incl`.
  - The scan is a function.
  - The C loop is the method `Engine.Parser.MatchOpt`, proved equal to it.
  - The matcher's contract is stated on the whole table: none iff no prefix;
    an exact name wins at once; otherwise the longest prefix, first in scan
    order.
- `Machine` is the step function over a value `State`, with one function per
  C function. It has tokens, tables, `arg`, `eoval`, `ioper`, `pending`,
  `grppos` and the current option.
- `Engine.Parser` is a class with an array of tokens and arrays for both
  tables, updated in place.
  - Each method implements a C function, or one loop or branch of one.
  - Each is proved to make exactly the transition its `Machine` function
    describes: `permute_val` with its memmove and `incr_between`,
    `permute_rest`, `update_opt`, `update_oper`, `add_val`, `occ_opt`,
    `parse_opt`, `parse_arg`, `assign_opers` and `readopt_parse`.
- `Permuter`, `Distributor`, `Steps`, `Tokens` and `Progress` hold what is
  proved about the step function:
  - the permutation's effect on cells and views;
  - the closed form of the operand distribution;
  - the state invariant `Valid`, which every successful step preserves;
  - the meaning of each token form;
  - progress of the parse loop.
- `ReadOpt` holds `readopt_parse_all` (a do-while loop) and `readopt_keyval`.
- `ReadArg` holds the field-recording driver `readarg_parse` and
  `readarg_parser_init`.
- `Findings` covers the grouped-value defect below: the as-written rule and
  the corrected rule on one concrete input.

Where the two source files differ only in how a failing status is reported,
the engine is written once. `Engine.Parser.Step` returns readopt's answer.
`ReadArg.ArgParser.Parse` writes the same status into `error`.

Behaviour of the code worth noting:

- There is no abbreviation. A declared name matches only when it is a prefix
  of the typed fragment, not the other way round.
- Among equally long inexact matches, the first found wins.
- A bounded operand slot takes its lower limit plus up to its upper limit of
  extra tokens. It can therefore end with more than its upper limit and still
  succeed (`Distributor.BoundedSlotMayExceedUpper`).
- `--` followed by two or more tokens moves them as one block without ever
  setting `ioper.start` or advancing `eoval`.
- `--` followed by exactly one token takes the one-token path.

## Model

| member | source | states |
|---|---|---|
| Decl.SelectUpper | readarg.h:528-531 | the upper limit is one of the two numbers and at least both |
| Decl.SelectLower | readarg.h:533-537 | the lower limit is the smaller number, the larger one when unbounded, never above the upper limit |
| Decl.ValidateWithin | readarg.h:520-526 | a count is within bounds iff min <= count <= max, or max <= count when unbounded |
| Decl.OptCount | readarg.h:508-512 | the entries a validate_opt-guarded loop visits: all valid, then the first invalid entry or the end |
| Decl.OperCount | readarg.h:514-518 | the same for operand slots guarded by validate_arg |
| Matcher.SkipIncl | readarg.h:442-451 | returns an offset iff `inner` is a prefix of `outer`, and the offset is the length of `inner` |
| Engine.Parser.MatchOpt | readarg.h:281-322 | the option/name loop, with its early return on an exact name and its strictly-longer update, computes the scan function |
| Matcher.MatchNoneIff | readarg.h:281-322 | no option is reported iff no declared name of the form is a prefix of the fragment |
| Matcher.MatchIsPrefix | readarg.h:281-333 | a reported option is a declared entry with a prefix name whose length is the number of characters consumed |
| Matcher.MatchExactFirst | readarg.h:301-311 | when some name equals the fragment, the first option declaring such a name is reported and the whole fragment is consumed |
| Matcher.MatchLongestFirst | readarg.h:299-322 | otherwise the reported name is a longest prefix name, and no earlier name in scan order is as long |
| Machine.Init | readarg.h:495-506 | parser_init: both cursors at token 0, nothing pending, no group, no current option, empty ioper |
| Engine.Parser.constructor | readopt.c:372-392 | the parser's fields denote Machine.Init of its arrays |
| ReadArg.ArgParser.constructor | readarg.h:495-506 | a fresh parser in the initial state with no error recorded |
| Steps.InitValid | readarg.h:495-506 | the initial state satisfies the parse invariant iff the token array is empty or no value-taking option already holds values |
| Permuter.PermuteValCells | readarg.h:460-475 | permute_val writes the value at the target's last slot, shifts the cells up to eoval right by one, leaves the rest, and grows eoval by one |
| Permuter.PermuteValViews | readarg.h:460-488 | the target view gets its fallback start; every other option view and ioper is moved by incr_between (start in [pos, eoval], inclusive); nothing else in the tables changes |
| Permuter.PermuteGrowsTarget | readarg.h:460-482 | the target view's cells are its old cells followed by the new value |
| Permuter.PermuteKeepsOther | readarg.h:466-488 | a view lying wholly below pos or wholly inside [pos, eoval) keeps its cells after the shift |
| Permuter.PermuteRestSpec | readarg.h:490-493 | permute_rest copies the block to the target and leaves the cells before and after it alone |
| Permuter.PermuteOptLayout | readarg.h:432-440 | placing an option value keeps the layout (option values below the intermediate operands, which end at eoval) |
| Permuter.PermuteOperLayout | readarg.h:361-367 | appending one operand places it at eoval and keeps the layout |
| Engine.Parser.PermuteVal | readopt.c:334-357 | the in-place fallback, memmove, store, eoval increment and incr_between loop make exactly Machine.PermuteVal |
| Engine.Parser.ShiftCells | readopt.c:345-347 | the memmove of the cells from pos up to eoval and the store of the value |
| Engine.Parser.BumpOpts | readopt.c:353-354 | incr_between over every valid option except the target |
| Engine.Parser.PermuteRest | readopt.c:366-370 | the in-place block copy equals Machine.PermuteRest |
| Engine.Parser.OccOpt | readopt.c:325-332 | the option becomes current and its count grows by one |
| Steps.AddValSpec | readarg.h:432-440 | add_val clears pending; it succeeds iff the count is within bounds; on RANGEOPT nothing else changes; on success the value is permuted in |
| Engine.Parser.AddVal | readopt.c:302-312 | the in-place add_val is Machine.AddVal |
| Steps.UpdateOptSpec | readarg.h:335-359 | update_opt counts the occurrence; an attached value goes to add_val; a value-taking option without one becomes pending; a flag given a value is NOTREQ |
| Tokens.UpdateOptValue | readarg.h:337-345 | an attached value succeeds iff the incremented count is within bounds, and then the option's cells are its old cells followed by the value; either way every other value-taking option keeps its values and ioper its operands |
| Steps.UpdateOptKeeps | readarg.h:335-359 | a successful update_opt keeps the layout and the cursor and moves eoval by at most one |
| Engine.Parser.UpdateOpt | readopt.c:220-237 | the in-place update_opt is Machine.UpdateOpt |
| Steps.UpdateOperOne | readarg.h:363-367 | one operand is appended at eoval to ioper, whose cells grow by that token; the layout holds and every value-taking option keeps its values |
| Steps.UpdateOperBlock | readarg.h:368-373 | a block of two or more is copied to eoval; ioper's length grows by the block and its start is unchanged |
| Engine.Parser.UpdateOper | readopt.c:239-253 | the in-place update_oper is Machine.UpdateOper |
| Tokens.OperandFormIff | readarg.h:180-222 | a token is an operand iff it is "-", empty, or does not start with '-' |
| Tokens.ShortSuffix | readarg.h:231-252 | `-x...`, or the rest of a group: no match is NOTOPT with nothing changed; a flag with characters left starts a group on them; a value-taking option takes the rest as its value, or becomes pending when nothing is left |
| Tokens.LongSuffix | readarg.h:253-278 | `--name...`: no match, or a match followed by something other than '=' or the end, is NOTOPT; `--name` counts; `--name=v` gives a value-taking option v and a flag NOTREQ |
| Tokens.GroupStep | readarg.h:169-177 | inside a group the next short option is parsed; the group continues after a flag with characters left and otherwise ends; the cursor stays on the token exactly while the group continues; a flag or a pending option succeeds with the array untouched, and a value-taking option with characters left succeeds iff its incremented count is within bounds, its cells then gaining the rest of the group (RANGEOPT otherwise, array untouched) |
| Tokens.GroupAsWritten | readarg.h:169-177 | as written, the group continues on whatever the match left, even a value the option consumed |
| Tokens.DashDashLast | readarg.h:190-199 | a final `--` only moves the cursor past it |
| Tokens.DashDashOne | readarg.h:200-207 | `--` and one more token: that token is appended to ioper through the one-operand path, every value-taking option keeps its values, and the parse reaches the end |
| Tokens.DashDashBlock | readarg.h:200-207 | `--` and two or more tokens: they are copied in one block to eoval, ioper's length grows by their number, and the parse reaches the end |
| Tokens.StepOperand | readarg.h:212-222 | an operand token is appended to ioper at eoval, every value-taking option keeps its values, and the cursor moves on |
| Engine.Parser.ParseShort | readopt.c:127-146 | the in-place short-form parse_opt (corrected group rule) is Machine.ParseShort |
| Engine.Parser.ParseLong | readopt.c:147-164 | the in-place long-form parse_opt is Machine.ParseLong |
| Engine.Parser.ParseArg | readopt.c:76-125 | the in-place parse_arg is Machine.ParseArg |
| Engine.Parser.EndOfOptionsArg | readopt.c:98-113 | the `--` branch is Machine.EndOptions |
| Tokens.StepAtEnd | readarg.h:126-148 | at the end of the array: NOVAL if a value is pending, otherwise RANGEOPT if some option's count is out of bounds, otherwise assign_opers's table and status; the answer ends the parse |
| Tokens.StepPending | readarg.h:149-154 | with a value pending, the whole token becomes the value if the count allows it (RANGEOPT otherwise) and the cursor advances; on success every other value-taking option keeps its values and ioper its operands |
| Tokens.StepCursor | readarg.h:156-163 | a step before the end never ends the parse; the cursor advances unless a group goes on, and jumps to the end after `--` |
| Steps.StepValid | readarg.h:124-164 | every successful step preserves the parse invariant Valid (views inside the claimed prefix, the values of different value-taking options in disjoint blocks below ioper, ioper ending at eoval, group shorter than the token) |
| Tokens.StepKeepsValues | readarg.h:124-164 | a successful step before the end changes the values of no value-taking option except the one it counts, and changes ioper's operands only when it adds operands |
| Permuter.LayoutIoperApart | readarg.h:460-488 | under the layout, an option's placed values share no cell with ioper's operands |
| Steps.OccKeepsValues | readarg.h:453-458 | counting an occurrence, with or without making it pending, changes no other option's values and no operand |
| Steps.OccPlaceKeeps | readarg.h:432-440 | placing the attached value of a just counted option keeps the layout, and every other option and ioper keep their values |
| Tokens.ParseShortValues | readarg.h:231-252 | a successful short-form parse_opt changes the values of no option but the one it matched, and no operand |
| Tokens.ParseLongValues | readarg.h:253-278 | a successful long-form parse_opt changes the values of no option but the one it matched, and no operand |
| Engine.Parser.Step | readopt.c:44-74 | readopt_parse in place is Machine.Step |
| Distributor.AssignSpec | readarg.h:377-430 | fewer operands than the summed lower limits is RANGEOPER with nothing assigned; otherwise each slot gets its closed-form share and start, later entries are unchanged, and it succeeds iff no extra token is left over |
| Distributor.DistributeClosed | readarg.h:404-426 | the distribution loop equals the closed form slot by slot and drains the required pool |
| Distributor.AssignSum | readarg.h:404-429 | on success the slots together grow by exactly the number of intermediate operands |
| Distributor.AssignShares | readarg.h:418-425 | every slot receives at least its lower limit, and the extras handed out do not exceed the extras available |
| Distributor.AssignConsecutive | readarg.h:404-425 | unset slots are laid out one after another from ioper's start, each as long as its share |
| Distributor.UnboundedTakesRest | readarg.h:422-425 | an unbounded slot takes every remaining extra token, so later slots get only their lower limits |
| Distributor.BoundedSlotMayExceedUpper | readarg.h:418-429 | a slot with bounds [1, 2] and three operands receives all three and the parse succeeds, although three is outside its bounds |
| Engine.Parser.SumLowers | readopt.c:258-265 | the first loop computes nlower |
| Engine.Parser.FillSlot | readopt.c:279-296 | one pass of the second loop is Fill and Drain |
| Engine.Parser.AssignOpers | readopt.c:255-300 | the in-place assign_opers is Distributor.Assign |
| Progress.StepProgress | readarg.h:156-163 | when no flag declares an empty short name, a successful step moves the cursor forward or leaves a shorter group on the same token |
| Progress.RunAll | readopt.c:32-42 | the repeated steps end with an answer that ends the parse or is an error, and a successful end state is valid |
| Progress.RunAllUnfolds | readopt.c:37-39 | a successful step that does not end the parse leaves the result of the loop unchanged |
| Progress.EmptyNameStalls | readarg.h:166-177 | with an empty short name, a step inside a group succeeds without consuming anything, so the loop never ends |
| ReadOpt.ParseAll | readopt.c:32-42 | the do-while loop over readopt_parse returns RunAll's last state and answer, which ends the parse or is an error |
| ReadOpt.Split | readopt.c:429-435 | key and value rejoined with '=' give the string back, and the key has no '=' |
| ReadOpt.SplitUnique | readopt.c:429-435 | any split with an '='-free key is the one Split returns |
| ReadOpt.Keyval | readopt.c:429-435 | the first '=' is overwritten with the terminator, nothing else changes, and the returned index starts the value |
| ReadArg.ErrorSticks | readarg.h:124-164 | the error field is clean after a step iff it was clean and the step succeeded; once set it stays an error and readarg_parse returns zero |
| ReadArg.SameVerdict | readarg.h:145-163 | from a clean error field, readarg_parse goes on exactly when readopt_parse_all's loop test would go on |
| ReadArg.ArgParser.Parse | readarg.h:124-164 | one engine step; a failing status overwrites `error` and a success leaves it; the result is nonzero iff the step did not end the parse, succeeded and no error was recorded before; once an error is set the result is zero and the error stays |
| Findings.GroupedValueAsWritten | readarg.h:169-177 | as written, `-vofoo` gives `o` the value "foo" but leaves the group on "foo", in a state that is not a valid parse state |
| Findings.GroupedValueCorrected | readarg.h:231-246 | with the corrected rule, `-vofoo` gives `o` the value "foo", ends the group, and the parse then ends successfully |

## Left out

- Usage and status rendering (`readopt_put_status`, `readopt_put_usage`, `format_usage_*`, the write helpers) and everything in `test/test.c` and `readopt.h`: they are output, not parsing.
- Assertions compiled under `NDEBUG`: each is a precondition of the caller's state that the invariant `Valid` already implies.
- Pointer identity and aliasing. Views are indices into one token array. `grppos` is the string the C pointer denotes, not an offset. The C `!names[form]` test and an empty name list behave the same, so both are an empty list.
- `size_t` wrap-around: counts, `nlower` and offsets are unbounded integers. The counts and offsets of the C code stay below the size of argv. `nlower` sums the declared lower limits instead, so declared limits whose sum exceeds `SIZE_MAX` wrap in C (slots with lower limits `SIZE_MAX` and 1 and no operands: C computes `nlower` as 0 and succeeds, `Distributor.Assign` gives RANGEOPER). Such tables are not modelled.
- NUL characters: tokens and names are taken to hold no '\0'. A C string ends at its first NUL, so in C `"-\0x"` is the operand "-" (readarg.h:211-213) and name matching stops at a NUL too, while the model reads the whole Dafny string (it classifies `"-\0x"` as a short option).
- `nupper` is computed in both `assign_opers` but never used, so it is not modelled.
- `NULL + off` in `assign_opers` when `ioper` was never set (bulk `--` only): the slot start stays unset (`StartAt`).
- ReadOpt.ParseAll, Progress.RunAll: these require that no flag declares an empty short name. With such a name the source's loop can fail to terminate (Progress.EmptyNameStalls), and a total Dafny loop cannot model it. The requirement also excludes tables on which the C loop does end, such as flags "" and "a" with the token "-a", where the exact name "a" wins.
- Machine and Engine.Parser model the corrected group rule, not the as-written one. The as-written rule is kept as `ParseShort(..., asWritten := true)` for the finding below.
- `Valid` is preserved only by successful steps. After RANGEOPT in `add_val` the count is already incremented without a placed value. The drivers stop at the first error, as `readopt_parse_all` does.

## Findings

| source | as written | input that shows it | evidently intended | confidence | as-written member | corrected member |
|---|---|---|---|---|---|---|
| readarg.h:169-177, readarg.h:231-246, readopt.c:80-86, readopt.c:133-143 | inside a group, a value-taking option with characters left takes them as its value, but `grppos` still points at them, so the next step parses the value again as short options | `-vofoo` with flag `v` and value-taking `o` | a value-taking option consumes the rest of the group, which then ends | not executed | Findings.GroupedValueAsWritten | Findings.GroupedValueCorrected |
