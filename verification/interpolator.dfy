/**
 The zero-stuffing interpolator stage of the DVB-S transmitter
 (`interpolator<T>` in src/apps/leandvbtx.cc). Each time it runs it takes as
 many input elements as both pipes allow, writes each one followed by `d - 1`
 zeros to its output pipe, consumes those input elements and commits `d`
 output elements per input element.
 */
module Interpolator {
  import opened Pipes
  import opened ZeroStuff

  /**
   How many input elements one run consumes: `min(readable, writable / d)`,
   the most the input can supply and the output can take at `d` slots each.
   */
  function Count(readable: nat, writable: nat, d: nat): (count: nat)
    requires d >= 1
    ensures count <= readable
    ensures count * d <= writable
    ensures count == readable || writable < (count + 1) * d
    ensures count == 0 <==> readable == 0 || writable < d
  {
    if readable <= writable / d then readable else writable / d
  }

  /** No larger count respects both limits: the stage does all the work the pipes permit. */
  lemma CountIsMaximal(readable: nat, writable: nat, d: nat, c: nat)
    requires d >= 1
    requires c <= readable && c * d <= writable
    ensures c <= Count(readable, writable, d)
  {
  }

  /** The pipes after one run, and how many input elements it consumed. */
  datatype Outcome<T> = Outcome(input: Pipe<T>, output: Pipe<T>, count: nat)

  /** One run of the stage, stated as a function of the two pipes. */
  function Step<T>(d: nat, zero: T, input: Pipe<T>, output: Pipe<T>): (r: Outcome<T>)
    requires d >= 1
    requires Valid(input) && Valid(output)
    ensures r.count == Count(Readable(input), Writable(output), d)
    ensures Valid(r.input) && Valid(r.output)
    ensures r.input.capacity == input.capacity && r.output.capacity == output.capacity
    ensures input.items == input.items[..r.count] + r.input.items
    ensures r.output.items == output.items + Stuff(input.items[..r.count], d, zero)
  {
    var count := Count(Readable(input), Writable(output), d);
    var produced := Stuff(Rd(input)[..count], d, zero);
    Outcome(Read(input, count), Written(output, produced, count * d), count)
  }

  /**
   The stage's `run`, written as the source writes it: a cursor `pin` over the
   readable input, an outer loop copying one input element per iteration and an
   inner loop counting `skip` down from `d - 1` and writing a zero each time.
   `written` is what the output cursor has stored into the writer's window so
   far; committing it checks that it fits in the writable space.
   */
  method Run<T>(d: nat, zero: T, input: Pipe<T>, output: Pipe<T>) returns (input': Pipe<T>, output': Pipe<T>)
    requires d >= 1
    requires Valid(input) && Valid(output)
    ensures input' == Step(d, zero, input, output).input
    ensures output' == Step(d, zero, input, output).output
  {
    var count := Count(Readable(input), Writable(output), d);
    var src := Rd(input);
    var written: seq<T> := [];
    var pin := 0;
    while pin < count
      invariant 0 <= pin <= count
      invariant written == Stuff(src[..pin], d, zero)
    {
      written := written + [src[pin]];
      var skip := d - 1;
      while skip != 0
        invariant 0 <= skip <= d - 1
        invariant written == Stuff(src[..pin], d, zero) + [src[pin]] + Zeros(d - 1 - skip, zero)
      {
        skip := skip - 1;
        written := written + [zero];
      }
      assert src[..pin + 1] == src[..pin] + [src[pin]];
      StuffSnoc(src[..pin], src[pin], d, zero);
      pin := pin + 1;
    }
    input' := Read(input, count);
    output' := Written(output, written, count * d);
  }

  /**
   A run uses exactly `d` writable slots per consumed element, and it leaves
   both pipes untouched exactly when there is nothing to read or less than one
   block of room to write.
   */
  lemma StepProgress<T>(d: nat, zero: T, input: Pipe<T>, output: Pipe<T>)
    requires d >= 1
    requires Valid(input) && Valid(output)
    ensures var r := Step(d, zero, input, output);
      && Readable(r.input) == Readable(input) - r.count
      && Writable(r.output) == Writable(output) - r.count * d
      && (Readable(input) == 0 || Writable(output) < d <==> r.input == input && r.output == output)
  {
  }

  /** With factor one the stage copies `min(readable, writable)` elements verbatim. */
  lemma StepByOne<T>(zero: T, input: Pipe<T>, output: Pipe<T>)
    requires Valid(input) && Valid(output)
    ensures var r := Step(1, zero, input, output);
      && r.count == (if Readable(input) <= Writable(output) then Readable(input) else Writable(output))
      && r.output.items == output.items + input.items[..r.count]
  {
    var r := Step(1, zero, input, output);
    StuffByOne(input.items[..r.count], zero);
  }

  /**
   The stage preserves the order of the stream across runs: if everything the
   output pipe has ever carried is the zero-stuffing of everything consumed so
   far, the same holds after another run.
   */
  lemma StepKeepsStream<T>(d: nat, zero: T, input: Pipe<T>, output: Pipe<T>, consumed: seq<T>, delivered: seq<T>)
    requires d >= 1
    requires Valid(input) && Valid(output)
    requires delivered + output.items == Stuff(consumed, d, zero)
    ensures var r := Step(d, zero, input, output);
      && consumed + input.items == consumed + input.items[..r.count] + r.input.items
      && delivered + r.output.items == Stuff(consumed + input.items[..r.count], d, zero)
  {
    var r := Step(d, zero, input, output);
    var taken := input.items[..r.count];
    assert input.items == taken + r.input.items;
    assert consumed + input.items == (consumed + taken) + r.input.items;
    StuffExtend(consumed, delivered, output.items, taken, d, zero);
  }

  /**
   Runs the stage repeatedly against a consumer that, before each run, reads
   everything the output pipe holds; returns everything the consumer receives.
   Each run makes progress because the output storage fits at least one block
   of `d` slots.
   */
  function Drain<T>(d: nat, zero: T, input: Pipe<T>, output: Pipe<T>): (delivered: seq<T>)
    requires d >= 1
    requires Valid(input) && Valid(output)
    requires output.capacity >= d
    ensures delivered == output.items + Stuff(input.items, d, zero)
    ensures |delivered| == Readable(output) + Readable(input) * d
    decreases Readable(input)
  {
    var emptied := Read(output, Readable(output));
    if Readable(input) == 0 then
      output.items
    else
      var r := Step(d, zero, input, emptied);
      StuffAppend(input.items[..r.count], r.input.items, d, zero);
      output.items + Drain(d, zero, r.input, r.output)
  }
}
