# golang-asm: the instruction builder and the Anames generator

This project models two sequential parts of golang-asm in Dafny and proves
their properties.

- `builder.dfy`, module `Asm`, models the `Builder` of `builder.go`. It owns a
  fixed block of instruction records (`obj.Prog`) and hands out one slot at a
  time through a bump cursor `used`. Once the block is exhausted it falls back
  to the link context's own allocator, and every record it hands out is bound
  to its context. The records the caller appends form an intrusive
  singly-linked list (`first`, `last`, `Prog.Link`). `Assemble` passes the
  head of that list, and the builder itself as the allocator, to an
  architecture backend. The model is a class over an `array<Prog>` block,
  with ghost `Contents` (the appended records, in order) and ghost `Handed`
  (every record the allocator has issued).
- `stringer.dfy`, module `Stringer`, models the scan loop of the
  `obj/stringer.go` generator. The generator reads an architecture's
  instruction enum and writes the Go table `Anames`. The scan stays off until
  the line holding `= obj.ABase`, cuts that line before the marker, strips
  trailing `//` and `/*` comments, and stops at a line that starts with `}` or
  still holds `=`. It emits the alphanumeric run that follows a leading tab
  and `A`, keying the first entry with `obj.A_ARCHSPECIFIC`, and always closes
  the table with `}`. The program's loop is the method `Generate`. It is
  proved equal to a declarative description, `Output`: the first marker line,
  the per-line verdicts and the names collected up to the first stop. A step
  function `Step`/`Run` mirrors the loop and links the two.

The generated text is modelled as the sequence of chunks the program writes,
in order: the header, one entry per name, and the closing brace.

## Model

| member | source | states |
|---|---|---|
| Asm.Builder.constructor | builder.go:73-89 | A new builder binds the named backend and a fresh context, and has a block of exactly `cacheSize` fresh, zeroed slots (nil `Link` and `Ctxt`). The cursor is 0, the list is empty and nothing has been handed out. |
| Asm.ZeroedRecords | builder.go:82 | `make` yields `cacheSize` distinct, fresh, zeroed records. |
| Asm.Link.NewProg | builder.go:38 | The context's allocator returns a fresh record with a nil Link. |
| Asm.Builder.Root | builder.go:24-27 | Root is nil exactly when nothing was appended; otherwise it is the first appended record. |
| Asm.Builder.ProgAlloc | builder.go:34-46 | If `used < len(block)`, it returns `block[used]` and advances `used` by exactly one. Otherwise it returns a fresh record and leaves `used` alone. The record was never handed out before, is empty (nil `Link`), and its `Ctxt` is the builder's context. No other slot is touched. The list is kept, and so is the invariant: `used <= len(block)`, slots below `used` issued, and slots at or above it still zeroed (nil `Link` and `Ctxt`) and off the list. |
| Asm.Builder.NewProg | builder.go:29-32 | The same guarantees as the allocator it delegates to: a new, empty record bound to the builder's context, from the next block slot while one is left. |
| Asm.Builder.AddInstruction | builder.go:48-58 | On an empty list, `first` and `last` become `p`. Otherwise the old tail's Link becomes `p`, `p` becomes `last` and `first` stays. Either way the appended sequence grows by exactly `p`, `p`'s own fields are left as they were, the old tail's `Ctxt` is unchanged, and the allocator state is unchanged. |
| Asm.WalkChain | builder.go:50-58 | Following Link from the head of a chained, duplicate-free sequence visits exactly that sequence, in order. |
| Asm.Builder.RootWalk | builder.go:25-27 | Following Link from `Root()` visits exactly the appended records in append order, and `last` is the final one. |
| Asm.Arch.Assemble | builder.go:68 | The backend is entered only with a valid allocator bound to the same context, and with a symbol whose function text is the builder's list head. It obtains its `synth` records only through the allocator. So the cursor advances to `min(used + synth, len(block))`, exactly `synth` new records are handed out, each bound to the builder's context and either a block slot or fresh, and the list (`first`, `last`, the appended records) is unchanged. |
| Asm.Builder.Assemble | builder.go:60-70 | It builds the symbol with text `first` and hands it to the backend with this builder's allocator. The builder invariant survives. The backend's records are issued exactly as NewProg issues them: the cursor advances to `min(used + synth, len(block))`, exactly `synth` new records are handed out, each bound to the builder's context and either a block slot or fresh, and the list is unchanged. |
| Asm.ArchSet | builder.go:74 | Backend lookup yields a fresh backend of the requested name. |
| Stringer.IndexSpec | obj/stringer.go:57 | `strings.Index` returns -1 exactly when the pattern occurs nowhere. Otherwise the pattern occurs at the answer and at no earlier index. |
| Stringer.CutRemovesPattern | obj/stringer.go:67-74 | A cut keeps a prefix, and leaves the line whole unless the first occurrence is past index 0. In that case it ends right before the occurrence and no occurrence remains. |
| Stringer.StripCommentsRemoves | obj/stringer.go:66-74 | Stripping keeps a prefix, and keeps a line whole when neither marker is past index 0. A `//` found first past index 0 is removed entirely. Afterwards the first occurrence of each marker is at index 0 or there is none. |
| Stringer.StripCommentsIdempotent | obj/stringer.go:66-74 | Stripping a stripped line changes nothing. |
| Stringer.AlnumRunMaximal | obj/stringer.go:30 | The run is all letters and digits, and the character after it is not one. |
| Stringer.MatchAreCapture | obj/stringer.go:30 | A line matches `^\tA([A-Za-z0-9]+)` exactly when it starts with tab, `A` and a letter or digit. The capture is non-empty, alphanumeric, follows `\tA`, and cannot be extended. |
| Stringer.ClassifySpec | obj/stringer.go:66-83 | A processed line stops the scan exactly when its stripped form starts with `}` or holds `=`. Otherwise it yields a name exactly when the stripped form matches, and that name is the capture. |
| Stringer.CollectAppend | obj/stringer.go:51-90 | Before any stop, the names of consecutive stretches of lines concatenate. |
| Stringer.CollectStopsAt | obj/stringer.go:77-79 | At a stop, nothing from it onward is collected, whatever follows. |
| Stringer.TakeNamesAlnum | obj/stringer.go:80-83 | Every emitted name is a non-empty run of ASCII letters and digits. |
| Stringer.TakeNamesAppend | obj/stringer.go:51-90 | Names come out in input order: with no stop in `a`, the names of `a + b` are those of `a` followed by those of `b`. |
| Stringer.StopIsFinal | obj/stringer.go:75-79 | A line that stops the scan is final: neither it nor any later line, whatever those lines are, contributes a name. |
| Stringer.ActivationSpec | obj/stringer.go:53-60 | The activating line is the first one holding `= obj.ABase`. There is none exactly when no line holds it. |
| Stringer.ActivationAt | obj/stringer.go:53-60 | The first line holding the marker is the activating line. |
| Stringer.ActivationShift | obj/stringer.go:53-60 | Prepending lines without the marker shifts the activating line by their number, and keeps "no activation" as it is. |
| Stringer.InactiveLinesIgnored | obj/stringer.go:53-60 | Lines before the first marker line contribute no names. |
| Stringer.InactiveLinesOutput | obj/stringer.go:53-62 | Lines before the first marker line leave the whole written output unchanged. |
| Stringer.ScanStartsAtActivation | obj/stringer.go:53-64 | The activating line holds the marker. Dropping every line before it changes neither the names nor the activation, which then is line 0. |
| Stringer.OutputShape | obj/stringer.go:61-91 | The output is the header (exactly when some line holds the marker), then one chunk per name, then `}`, which is always last. Without a marker only `}` is written. |
| Stringer.EntriesShape | obj/stringer.go:84-89 | One entry per name, in order. The first is `\tobj.A_ARCHSPECIFIC: "<name>",`; every later one is `\t"<name>",`. |
| Stringer.EntriesSnoc | obj/stringer.go:84-89 | Emitting one more name appends one entry, keyed by `obj.A_ARCHSPECIFIC` exactly when no name came before. |
| Stringer.StepMonotone | obj/stringer.go:51-90 | One iteration: once stopped, nothing changes. While off, a line without the marker changes nothing. Afterwards the scan is on exactly when it was on or the line holds the marker. Names only grow, by at most one. |
| Stringer.StoppedAbsorbs | obj/stringer.go:77-79 | After the break, no line changes the state. |
| Stringer.FeedCollects | obj/stringer.go:75-89 | While on, the loop collects exactly the names of the verdicts up to the first stop. |
| Stringer.RunWhileOn | obj/stringer.go:66-89 | Once on, the loop stays on and emits exactly the declarative names of the remaining lines. |
| Stringer.RunMatchesNames | obj/stringer.go:48-90 | The loop switches on exactly when some line holds the marker. It emits exactly the names of the lines after the first marker line (that line cut before the marker) up to the first stop. |
| Stringer.ScanLine | obj/stringer.go:52-89 | One loop iteration performs one step of the scan. It either stops or continues from the new state over the remaining lines. What has been written stays the header (if on) and the entries of the names so far, and `first` means "no name yet". Once on, the scan stays on. A line that leaves it off neither stops it nor writes anything. |
| Stringer.Generate | obj/stringer.go:48-91 | The loop writes exactly `Output(lines, header)`, the declarative description. |
| Stringer.GenerateFile | obj/stringer.go:97-104 | With the header formatted from the input, output and package names, the program writes `Output`, and that header comes first whenever the scan switched on. |

## Left out

- The architecture backends are foreign code, so `arch.Set`, `a.Init` and the encoder behind `b.arch.Assemble` are placeholders. Only what the builder relies on is stated. The bytes `s.P` that the encoder writes are not specified.
- Asm.Builder.Assemble: what the returned bytes are depends on the backend, which is not part of this model. How many records the backend synthesises is a parameter, `synth`.
- Asm.Arch.Assemble: the backend's edits to the records it encodes are not modelled. This covers filling in the synthesised records and linking them into the instruction list. The model's backend only allocates.
- `obj.Linknew`, the `Headtype` setting and the `DiagFunc` that prints diagnostics (builder.go:75-79) are configuration and console output, and are not modelled. The context (`Link`) keeps only its record allocator.
- Asm.Builder.constructor: `NewBuilder` always returns a nil error (builder.go:88), so the model has no error path.
- Asm.ArchSet: the model assumes the architecture name resolves. `arch.Set` is not part of this model, and builder.go:74-75 uses its result without a check. An unknown name would make line 75 dereference a nil backend, and that crash is not modelled.
- `cacheSize` is a `nat`. A negative size makes `make` panic in Go, and that panic is not modelled.
- Only the `Link` and `Ctxt` fields of `obj.Prog` are modelled. The rest of a record is payload the builder never reads.
- Asm.Arch.Assemble: Go passes the method value `b.progAlloc` as a callback. The model passes the builder itself, and its backend touches the builder only by calling `ProgAlloc`. It states as a precondition that the builder is valid and bound to the same context.
- Asm.Builder.AddInstruction: requires that `p` is not already on the list. builder.go:50-58 accepts such a record, links it a second time and makes the list cyclic, and the model does not cover that case. It also requires that `p` is not a block slot the allocator has not issued yet. The block is private to the builder, so no caller can hold such a slot.
- Flag parsing, `flag.Usage`, `os.Exit`, opening and creating files, the `bufio` writer and scanner, and `log.Fatal` (obj/stringer.go:33-47, 92-94) are I/O. The input arrives as a sequence of lines, and the output is the sequence of chunks written.
- The scanner's own line splitting and its token-size limit are not modelled. A scanner error, which line 93 reports with the wrong variable, is not modelled either.
- Strings are sequences of characters, not bytes. `strings.Index`, slicing and the regexp are modelled on characters, which agrees with Go for ASCII input.
- Go's `%q` is modelled only as surrounding quotes. This is exact for the alphanumeric names the regexp captures.
- Stringer.Generate: takes the already formatted header as a parameter. Stringer.GenerateFile formats it from the three flags.
- Stringer.ScanLine: the loop body is a method of its own, taking and returning the two flags and the text written so far. The loop in `Generate` only sequences it.

