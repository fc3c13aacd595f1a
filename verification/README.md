# Zero-stuffing interpolator of the leansdr DVB-S transmitter

The DVB-S transmitter `leandvbtx` is a chain of streaming stages connected by
bounded pipes. This project models the one stage whose code lives in the
application file itself: the zero-stuffing `interpolator<T>`
(`src/apps/leandvbtx.cc`). Each time the scheduler runs it, the stage

- takes `count = min(in.readable(), out.writable() / d)` input elements,
- writes each of them to the output window followed by `d - 1` zeros,
- consumes `count` input elements and commits `count * d` output elements.

The model has three modules:

- `Pipes` (`pipes.dfy`): the pipe as the stage sees it. A pipe holds the
  elements written and not yet read, in order, and has a fixed capacity.
  `Readable`, `Writable`, `Rd`, `Read` and `Written` are the reader/writer
  operations `readable()`, `writable()`, `rd()`, `read(n)` and `written(n)`.
  What the stage stores through the `wr()` cursor is the sequence it hands to
  `Written`, which commits it only if it fits in the writable space.
  Reading more than is readable or committing more than is writable is a fatal
  error in leansdr, so both are preconditions.
- `ZeroStuff` (`zerostuff.dfy`): the pure zero-stuffed stream `Stuff`. It comes
  with an independent pointwise description `IsStuffing`, proved equivalent in
  both directions. `Pick` keeps every `d`-th slot and is a left inverse of
  `Stuff`.
- `Interpolator` (`interpolator.dfy`): the stage itself. `Count` is the amount
  of work per run. `Step` is one run as a function of the two pipes. `Run` is
  the run written as the source writes it, with the outer copy loop and the
  inner `skip` countdown loop, and it is proved equal to `Step`. `Drain` runs the
  stage repeatedly against a consumer that empties the output pipe before
  each run.

The element type is generic. The source's literal `0`, converted to `T`, is a
`zero: T` parameter.

In this file `run` upsamples with the library's `fir_resampler`
(src/apps/leandvbtx.cc:116-118), and the `interpolator` stage is never
instantiated. This model covers the `interpolator` stage itself.

## Model

| member | source | states |
|---|---|---|
| Pipes.Rd | src/apps/leandvbtx.cc:30 | the reader's view `in.rd()` holds exactly `readable` elements, and reading `n` of them leaves exactly the view after its first `n`, so the stage consumes in view order |
| Pipes.Read | src/apps/leandvbtx.cc:35 | consuming `n ≤ readable` elements removes exactly the oldest `n`; the rest stay readable in the same order, and `n` slots become writable |
| Pipes.Written | src/apps/leandvbtx.cc:36 | committing `n` slots of a window no longer than `writable` appends exactly those `n` elements after the existing ones; later window slots are not committed, and writable shrinks by `n` |
| Pipes.ReadRead | src/apps/leandvbtx.cc:35 | two successive reads of `a` and `b` elements equal one read of `a + b` |
| Pipes.ReadWrittenCommute | src/apps/leandvbtx.cc:35-36 | the reader's `read` and the writer's `written` act on opposite ends of the pipe, so their order does not matter |
| ZeroStuff.Stuff | src/apps/leandvbtx.cc:31-34 | the stuffed stream is exactly `d` times as long as its input |
| ZeroStuff.StuffIsStuffing | src/apps/leandvbtx.cc:31-34 | slot `i` of the stuffed stream holds input element `i / d` when `d` divides `i`, and zero otherwise |
| ZeroStuff.StuffingIsStuff | src/apps/leandvbtx.cc:31-34 | a stream has that pointwise shape if and only if it equals `Stuff`, so the description fixes the output completely |
| ZeroStuff.StuffSlot | src/apps/leandvbtx.cc:32-33 | output slot `k*d` holds input element `k`, and slots `k*d + j` with `1 ≤ j < d` hold zero, for every `k < count` |
| ZeroStuff.StuffAppend | src/apps/leandvbtx.cc:31-34 | stuffing a concatenation is the concatenation of the stuffings, so input order is kept across chunk boundaries |
| ZeroStuff.StuffSnoc | src/apps/leandvbtx.cc:31-34 | one more input element appends one more block: the element, then `d - 1` zeros |
| ZeroStuff.StuffExtend | src/apps/leandvbtx.cc:31-36 | if what was delivered plus what is pending equals the stuffing of what was consumed, appending the stuffing of newly consumed elements keeps that equality |
| ZeroStuff.StuffByOne | src/apps/leandvbtx.cc:33 | with `d == 1` the inner loop writes nothing and the output is a verbatim copy of the input |
| ZeroStuff.PickStuff | src/apps/leandvbtx.cc:31-34 | keeping the first slot of every block of `d` recovers the consumed input exactly |
| Interpolator.Count | src/apps/leandvbtx.cc:29 | `count` never exceeds `readable`; `count*d` never exceeds `writable`; either all input is taken or one more block would not fit; `count == 0` exactly when `readable == 0` or `writable < d` |
| Interpolator.CountIsMaximal | src/apps/leandvbtx.cc:29 | every count that respects both limits is at most `Count`, so the stage does all the work the pipes permit |
| Interpolator.Step | src/apps/leandvbtx.cc:28-37 | one run consumes exactly the first `count` readable elements, with `count` as in `Count`, and leaves the rest readable in order; it appends their zero-stuffing to the output and nothing else; both pipes stay within their capacities |
| Interpolator.StepProgress | src/apps/leandvbtx.cc:29-36 | a run makes `count` fewer elements readable and uses exactly `count*d` writable slots; both pipes are unchanged exactly when `readable == 0` or `writable < d` |
| Interpolator.Run | src/apps/leandvbtx.cc:28-37 | the nested-loop implementation (outer copy loop over `pin`, inner `skip` countdown writing zeros) consumes and commits exactly what `Step` describes, so it never reads past `readable` or commits past `writable` |
| Interpolator.StepByOne | src/apps/leandvbtx.cc:29-36 | with `d == 1` a run copies `min(readable, writable)` elements verbatim |
| Interpolator.StepKeepsStream | src/apps/leandvbtx.cc:28-37 | over successive runs, everything delivered downstream plus the output pipe's contents stays equal to the stuffing of everything consumed; nothing is reordered, lost or duplicated |
| Interpolator.Drain | src/apps/leandvbtx.cc:28-37 | if the output storage holds at least `d` slots and a consumer empties it between runs, the stage consumes its whole input and the consumer receives the pending output followed by the stuffing of the input, `d` slots per input element |

## Left out

- The `interpolator` constructor (src/apps/leandvbtx.cc:24-27) stores the `int` factor as an `unsigned int`. The model takes `d` as a natural number and requires `d ≥ 1`. A factor of 0 would divide by zero at line 29. A negative factor wraps to a huge unsigned value. Neither case is modelled.
- Fixed integer widths (`unsigned int d`, `int skip`, `unsigned long count`) are not modelled. Nothing here can overflow: `count * d ≤ writable`, and `skip` starts at `d - 1`, which fits in an `int` because `d` comes from a positive `int`.
- The second constructor argument of `pipewriter` (the writer's minimum write size, `d`) is not modelled. Its meaning lives in the leansdr framework header, and that header is not part of this model.
- The pipe is abstract. `Writable` is capacity minus readable. The real buffer layout and any compaction inside the framework header are not modelled. The output cursor into the writer's window is modelled by the sequence of values stored through it; the stale contents of the window are not modelled, because the stage overwrites every slot it commits.
- Drain's progress on every run stands in for the writer's minimum write size set by `out(_out, d)` (src/apps/leandvbtx.cc:27). In the model it follows from `Writable` being capacity minus readable together with the requirement that the output capacity is at least `d`.
- The scheduler is not modelled; `Drain` stands in for it, running the stage repeatedly with a draining consumer. The real scheduler, the file reader and writer stages, and shutdown (src/apps/leandvbtx.cc:70, 140-144) are not modelled, because their code is not part of this model.
- `run` (src/apps/leandvbtx.cc:57-145) only wires up library stages: randomizer, RS encoder, interleaver, convolutional coder, constellation mapper, FIR resampler, decimator and AGC. Their implementations are not part of this model.
- Filter design, power normalisation, filter dumping and the AGC parameters (src/apps/leandvbtx.cc:102-114, 132-134) are floating-point library calls and are not modelled.
- The buffer sizes (src/apps/leandvbtx.cc:62-65) size the pipes that `run` wires up, and the interpolator stage uses none of them. Two of them (lines 63-64) depend on `SIZE_RSPACKET`, which is defined outside this file. They are not modelled.
- `config`, `usage` and `main` (src/apps/leandvbtx.cc:43-55, 149-193) do command-line parsing, a dB-to-linear conversion in floating point, and process exit. They are not modelled.
