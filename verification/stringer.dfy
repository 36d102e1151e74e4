/**
 * The Anames generator of golang-asm (obj/stringer.go): a mini stringer that
 * reads the lines of an architecture's instruction enum and writes the Go
 * table of instruction names.
 *
 * The scan stays off until the line holding "= obj.ABase", truncates that
 * line at the marker, strips trailing comments from every processed line,
 * stops at a closing brace or any remaining '=', and emits the alphanumeric
 * run that follows a leading tab and 'A'.  The written text is modelled as
 * the sequence of chunks the program writes, in order.
 *
 * The string functions carry no postconditions of their own: what they
 * guarantee is stated and proved in the lemma that follows each of them.
 */
module Stringer {

  datatype Option<T> = None | Some(value: T)

  // Sequence identities, proved once, away from the string functions
  // whose definitions would otherwise crowd every such step.

  lemma SplitAt<T>(s: seq<T>, k: nat)
    requires k <= |s|
    ensures s[..k] + s[k..] == s
  {
  }

  lemma AppendFront<T>(a: seq<T>, b: seq<T>)
    requires a != []
    ensures (a + b)[0] == a[0] && (a + b)[1..] == a[1..] + b
  {
  }

  lemma DropFront<T>(s: seq<T>, i: nat)
    requires i < |s|
    ensures s[i..] == [s[i]] + s[i + 1..]
  {
  }

  /** The text that switches the scan on. */
  const Marker := "= obj.ABase"

  // ---------------------------------------------------------------------
  // Searching and cutting strings

  /** `pat` occurs in `s` starting at index `j`. */
  predicate OccursAt(s: string, pat: string, j: int) {
    0 <= j && j + |pat| <= |s| && s[j..j + |pat|] == pat
  }

  /** strings.Index: the index of the first occurrence of `pat` in `s`, or -1. */
  function Index(s: string, pat: string): int
    decreases |s|
  {
    if |s| < |pat| then -1
    else if s[..|pat|] == pat then 0
    else
      var r := Index(s[1..], pat);
      if r < 0 then -1 else r + 1
  }

  /** Occurrences in `s` past index 0 are the occurrences in its tail, shifted by one. */
  lemma OccursShift(s: string, pat: string, j: int)
    requires s != [] && 0 < j
    ensures OccursAt(s, pat, j) <==> OccursAt(s[1..], pat, j - 1)
  {
    if j + |pat| <= |s| {
      assert s[1..][j - 1..j - 1 + |pat|] == s[j..j + |pat|];
    }
  }

  /**
   * Index finds the first occurrence: -1 means `pat` occurs nowhere in
   * `s`; otherwise `pat` occurs at the answer and at no earlier index.
   */
  lemma {:induction false} IndexSpec(s: string, pat: string)
    ensures Index(s, pat) == -1 || OccursAt(s, pat, Index(s, pat))
    ensures Index(s, pat) >= 0 ==> forall j :: 0 <= j < Index(s, pat) ==> !OccursAt(s, pat, j)
    ensures Index(s, pat) == -1 <==> forall j :: !OccursAt(s, pat, j)
    decreases |s|
  {
    if |s| < |pat| {
      assert forall j :: !OccursAt(s, pat, j);
    } else if s[..|pat|] == pat {
      assert OccursAt(s, pat, 0);
    } else {
      var r := Index(s[1..], pat);
      IndexSpec(s[1..], pat);
      assert !OccursAt(s, pat, 0);
      forall j | 0 < j
        ensures OccursAt(s, pat, j) <==> OccursAt(s[1..], pat, j - 1)
      {
        OccursShift(s, pat, j);
      }
      if r >= 0 {
        assert Index(s, pat) == r + 1;
      } else {
        assert Index(s, pat) == -1;
      }
    }
  }

  /** Every occurrence in a prefix is an occurrence in the whole string. */
  lemma OccursInPrefix(r: string, s: string, pat: string, j: int)
    requires r <= s && OccursAt(r, pat, j)
    ensures OccursAt(s, pat, j)
  {
    assert r[j..j + |pat|] == s[j..j + |pat|];
  }

  /**
   * A prefix of a string whose first occurrence of `pat` is at index 0 or
   * absent has its first occurrence at index 0 or absent too.
   */
  lemma IndexOfPrefix(r: string, s: string, pat: string)
    requires r <= s && Index(s, pat) <= 0
    ensures Index(r, pat) <= 0
  {
    IndexSpec(s, pat);
    IndexSpec(r, pat);
    var j := Index(r, pat);
    if j > 0 {
      OccursInPrefix(r, s, pat, j);
    }
  }

  /**
   * One comment cut of the loop: `line` up to the first occurrence of
   * `pat`, but only when that occurrence is at a positive index.
   */
  function Cut(line: string, pat: string): string {
    var i := Index(line, pat);
    IndexSpec(line, pat);
    if i > 0 then line[..i] else line
  }

  /**
   * A cut keeps a prefix of the line.  It leaves the line alone unless the
   * first occurrence is at a positive index; then it ends right before it
   * and no occurrence is left.  Either way what remains holds `pat` at
   * index 0 or not at all.
   */
  lemma CutRemovesPattern(line: string, pat: string)
    ensures Cut(line, pat) <= line
    ensures Index(line, pat) <= 0 ==> Cut(line, pat) == line
    ensures Index(line, pat) > 0 ==> |Cut(line, pat)| == Index(line, pat) && Index(Cut(line, pat), pat) == -1
    ensures Index(Cut(line, pat), pat) <= 0
  {
    var r := Cut(line, pat);
    IndexSpec(line, pat);
    IndexSpec(r, pat);
    if Index(line, pat) > 0 && Index(r, pat) >= 0 {
      OccursInPrefix(r, line, pat, Index(r, pat));
    }
  }

  /**
   * Removes a trailing line comment, then a trailing block comment, each
   * only when its opening marker is found at an index greater than 0.
   */
  function StripComments(line: string): string {
    Cut(Cut(line, "//"), "/*")
  }

  /**
   * What stripping guarantees: it keeps a prefix; a line with neither
   * marker past index 0 is kept whole; a line comment found past index 0
   * is gone entirely; and what is left holds either marker at index 0 or
   * not at all.
   */
  lemma StripCommentsRemoves(line: string)
    ensures StripComments(line) <= line
    ensures Index(line, "//") <= 0 && Index(line, "/*") <= 0 ==> StripComments(line) == line
    ensures Index(line, "//") > 0 ==> Index(StripComments(line), "//") == -1
    ensures Index(StripComments(line), "//") <= 0 && Index(StripComments(line), "/*") <= 0
  {
    var a := Cut(line, "//");
    var r := Cut(a, "/*");
    CutRemovesPattern(line, "//");
    CutRemovesPattern(a, "/*");
    IndexOfPrefix(r, a, "//");
    if Index(line, "//") > 0 {
      IndexSpec(r, "//");
      if Index(r, "//") >= 0 {
        OccursInPrefix(r, a, "//", Index(r, "//"));
        IndexSpec(a, "//");
      }
    }
  }

  /** Stripping twice strips nothing more: the comments are fully removed. */
  lemma StripCommentsIdempotent(line: string)
    ensures StripComments(StripComments(line)) == StripComments(line)
  {
    var r := StripComments(line);
    StripCommentsRemoves(line);
    CutRemovesPattern(r, "//");
    CutRemovesPattern(r, "/*");
  }

  // ---------------------------------------------------------------------
  // Classifying one line

  /** The termination test: a line starting with '}' or containing '='. */
  predicate Stops(line: string) {
    (|line| > 0 && line[0] == '}') || '=' in line
  }

  predicate IsAlnum(c: char) {
    ('A' <= c <= 'Z') || ('a' <= c <= 'z') || ('0' <= c <= '9')
  }

  predicate AllAlnum(s: string) {
    forall i :: 0 <= i < |s| ==> IsAlnum(s[i])
  }

  /** Length of the longest alphanumeric prefix of `s`. */
  function AlnumRun(s: string): nat {
    if s == [] || !IsAlnum(s[0]) then 0 else 1 + AlnumRun(s[1..])
  }

  /** AlnumRun is the longest alphanumeric prefix: all of it alphanumeric, the next character not. */
  lemma {:induction false} AlnumRunMaximal(s: string)
    ensures AlnumRun(s) <= |s| && AllAlnum(s[..AlnumRun(s)])
    ensures AlnumRun(s) < |s| ==> !IsAlnum(s[AlnumRun(s)])
    decreases |s|
  {
    if s != [] && IsAlnum(s[0]) {
      AlnumRunMaximal(s[1..]);
      assert s[..AlnumRun(s)] == [s[0]] + s[1..][..AlnumRun(s[1..])];
    }
  }

  /** The pattern `^\tA([A-Za-z0-9]+)`: on a match, the captured group. */
  function MatchAre(line: string): Option<string> {
    if |line| >= 3 && line[0] == '\t' && line[1] == 'A' && IsAlnum(line[2]) then
      AlnumRunMaximal(line[2..]);
      Some(line[2..][..AlnumRun(line[2..])])
    else
      None
  }

  /**
   * A line matches exactly when it starts with a tab, 'A' and a letter or
   * digit; the capture is the non-empty alphanumeric run after "\tA", and
   * cannot be extended: the regexp's `+` is greedy.
   */
  lemma MatchAreCapture(line: string)
    ensures MatchAre(line).Some? <==> |line| >= 3 && line[0] == '\t' && line[1] == 'A' && IsAlnum(line[2])
    ensures MatchAre(line).Some? ==>
      var name := MatchAre(line).value;
      && name != [] && AllAlnum(name) && "\tA" + name <= line
      && (|line| == 2 + |name| || !IsAlnum(line[2 + |name|]))
  {
    if MatchAre(line).Some? {
      var n := AlnumRun(line[2..]);
      AlnumRunMaximal(line[2..]);
      assert "\tA" + line[2..][..n] == line[..2 + n];
    }
  }

  // ---------------------------------------------------------------------
  // The scan, described declaratively

  /**
   * What one processed line does to the scan: it stops it, contributes
   * nothing, or contributes a name.
   */
  datatype Verdict = Stop | Skip | Name(name: string)

  /** Comments are stripped, then the termination test, then the regexp. */
  function Classify(line: string): Verdict {
    var l := StripComments(line);
    if Stops(l) then Stop
    else
      var m := MatchAre(l);
      if m.Some? then Name(m.value) else Skip
  }

  /**
   * A line stops the scan exactly when its stripped form passes the
   * termination test; otherwise it yields a name exactly when the stripped
   * form matches, and that name is a non-empty alphanumeric run.
   */
  lemma ClassifySpec(line: string)
    ensures Classify(line).Stop? <==> Stops(StripComments(line))
    ensures Classify(line).Name? <==> !Stops(StripComments(line)) && MatchAre(StripComments(line)).Some?
    ensures Classify(line).Name? ==>
      Classify(line).name == MatchAre(StripComments(line)).value
      && Classify(line).name != [] && AllAlnum(Classify(line).name)
  {
    MatchAreCapture(StripComments(line));
  }

  /** The verdict of every line, in order. */
  function Verdicts(ls: seq<string>): seq<Verdict> {
    seq(|ls|, i requires 0 <= i < |ls| => Classify(ls[i]))
  }

  /** Verdicts are taken line by line, so they distribute over concatenation. */
  lemma VerdictsAppend(a: seq<string>, b: seq<string>)
    ensures Verdicts(a + b) == Verdicts(a) + Verdicts(b)
  {
    var l, r := Verdicts(a + b), Verdicts(a) + Verdicts(b);
    forall i | 0 <= i < |l| ensures l[i] == r[i] {
      if i < |a| {
        assert (a + b)[i] == a[i];
      } else {
        assert (a + b)[i] == b[i - |a|];
      }
    }
  }

  lemma VerdictsPrefix(ls: seq<string>, j: nat)
    requires j <= |ls|
    ensures Verdicts(ls[..j]) == Verdicts(ls)[..j]
  {
  }

  lemma VerdictsCons(ls: seq<string>)
    requires ls != []
    ensures Verdicts(ls) == [Classify(ls[0])] + Verdicts(ls[1..])
  {
    assert Verdicts(ls)[1..] == Verdicts(ls[1..]);
  }

  /** The names of the verdicts `vs`, up to the first Stop. */
  function Collect(vs: seq<Verdict>): seq<string> {
    if vs == [] then []
    else
      match vs[0]
      case Stop => []
      case Skip => Collect(vs[1..])
      case Name(n) => [n] + Collect(vs[1..])
  }

  /** Before any Stop, collecting is compositional. */
  lemma {:induction false} CollectAppend(u: seq<Verdict>, v: seq<Verdict>)
    requires Stop !in u
    ensures Collect(u + v) == Collect(u) + Collect(v)
    decreases |u|
  {
    if u == [] {
      assert u + v == v;
    } else {
      AppendFront(u, v);
      assert u[0] == u[0..1][0];
      CollectAppend(u[1..], v);
      if u[0].Name? {
        assert [u[0].name] + Collect(u[1..]) + Collect(v) == [u[0].name] + (Collect(u[1..]) + Collect(v));
      }
    }
  }

  /** A Stop is final: nothing from it on is collected, whatever follows it. */
  lemma {:induction false} CollectStopsAt(u: seq<Verdict>, j: nat, tail: seq<Verdict>)
    requires j < |u| && u[j] == Stop
    ensures Collect(u) == Collect(u[..j])
    ensures Collect(u[..j + 1] + tail) == Collect(u)
    decreases j
  {
    if j == 0 {
      assert u[..0] == [];
      AppendFront(u[..1], tail);
    } else {
      assert u[1..][..j - 1] == u[..j][1..];
      AppendFront(u[..j + 1], tail);
      assert u[..j + 1][1..] == u[1..][..j];
      CollectStopsAt(u[1..], j - 1, tail);
    }
  }

  /** Every collected name is one a Name verdict carried. */
  lemma {:induction false} CollectNames(vs: seq<Verdict>)
    ensures forall n :: n in Collect(vs) ==> Name(n) in vs
    decreases |vs|
  {
    if vs != [] && !vs[0].Stop? {
      CollectNames(vs[1..]);
    }
  }

  /** The names contributed by the processed lines `ls`, up to the first stop. */
  function TakeNames(ls: seq<string>): seq<string> {
    Collect(Verdicts(ls))
  }

  /** Every emitted name is a non-empty run of ASCII letters and digits. */
  lemma TakeNamesAlnum(ls: seq<string>)
    ensures forall n :: n in TakeNames(ls) ==> n != [] && AllAlnum(n)
  {
    CollectNames(Verdicts(ls));
    forall n | n in TakeNames(ls)
      ensures n != [] && AllAlnum(n)
    {
      var i :| 0 <= i < |ls| && Verdicts(ls)[i] == Name(n);
      ClassifySpec(ls[i]);
    }
  }

  /**
   * Names are emitted in input order: when no line of `a` stops the scan,
   * the names of `a + b` are those of `a` followed by those of `b`.
   */
  lemma TakeNamesAppend(a: seq<string>, b: seq<string>)
    requires forall j :: 0 <= j < |a| ==> !Stops(StripComments(a[j]))
    ensures TakeNames(a + b) == TakeNames(a) + TakeNames(b)
  {
    VerdictsAppend(a, b);
    forall j | 0 <= j < |a| ensures Verdicts(a)[j] != Stop {
      ClassifySpec(a[j]);
    }
    CollectAppend(Verdicts(a), Verdicts(b));
  }

  /**
   * A processed line that stops the scan is final: neither it nor any
   * later line contributes a name.
   */
  lemma StopIsFinal(ls: seq<string>, j: nat, tail: seq<string>)
    requires j < |ls| && Stops(StripComments(ls[j]))
    ensures TakeNames(ls) == TakeNames(ls[..j])
    ensures TakeNames(ls[..j + 1] + tail) == TakeNames(ls)
  {
    ClassifySpec(ls[j]);
    VerdictsPrefix(ls, j);
    VerdictsPrefix(ls, j + 1);
    VerdictsAppend(ls[..j + 1], tail);
    CollectStopsAt(Verdicts(ls), j, Verdicts(tail));
  }

  /** The index of the first true entry of `bs`, if any. */
  function FirstTrue(bs: seq<bool>): Option<nat> {
    if bs == [] then None
    else if bs[0] then Some(0)
    else
      var r := FirstTrue(bs[1..]);
      if r.None? then None else Some(r.value + 1)
  }

  /** FirstTrue finds the first true entry, and None means there is none. */
  lemma {:induction false} FirstTrueSpec(bs: seq<bool>)
    ensures FirstTrue(bs).None? <==> true !in bs
    ensures FirstTrue(bs).Some? ==>
      var k := FirstTrue(bs).value;
      k < |bs| && bs[k] && true !in bs[..k]
    decreases |bs|
  {
    if bs != [] && !bs[0] {
      FirstTrueSpec(bs[1..]);
      assert bs == [bs[0]] + bs[1..];
      if FirstTrue(bs).Some? {
        var k := FirstTrue(bs).value;
        assert bs[..k] == [bs[0]] + bs[1..][..k - 1];
      }
    }
  }

  /** Whether each line holds the marker. */
  function Marks(lines: seq<string>): seq<bool> {
    seq(|lines|, i requires 0 <= i < |lines| => Index(lines[i], Marker) >= 0)
  }

  /** The index of the first line containing the marker, if any. */
  function Activation(lines: seq<string>): Option<nat> {
    FirstTrue(Marks(lines))
  }

  /**
   * Activation finds the first line holding the marker, and answers None
   * exactly when no line holds it.
   */
  lemma ActivationSpec(lines: seq<string>)
    ensures Activation(lines).None? <==> forall j :: 0 <= j < |lines| ==> Index(lines[j], Marker) < 0
    ensures Activation(lines).Some? ==>
      var k := Activation(lines).value;
      && k < |lines| && Index(lines[k], Marker) >= 0
      && forall j :: 0 <= j < k ==> Index(lines[j], Marker) < 0
  {
    var bs := Marks(lines);
    FirstTrueSpec(bs);
    if true in bs {
      var j :| 0 <= j < |bs| && bs[j];
      assert Index(lines[j], Marker) >= 0;
    }
    if FirstTrue(bs).Some? {
      var k := FirstTrue(bs).value;
      forall j | 0 <= j < k ensures Index(lines[j], Marker) < 0 {
        assert bs[..k][j] == bs[j] && bs[j] in bs[..k];
      }
    } else {
      forall j | 0 <= j < |lines| ensures Index(lines[j], Marker) < 0 {
        assert bs[j] in bs;
      }
    }
  }

  /** The first line holding the marker is the activating one. */
  lemma ActivationAt(lines: seq<string>, k: nat)
    requires k < |lines| && Index(lines[k], Marker) >= 0
    requires forall j :: 0 <= j < k ==> Index(lines[j], Marker) < 0
    ensures Activation(lines) == Some(k)
  {
    ActivationSpec(lines);
  }

  /** The lines the scan processes once on: the activating line cut before the marker, then the rest. */
  function Processed(lines: seq<string>, k: nat): seq<string>
    requires k < |lines| && Index(lines[k], Marker) >= 0
  {
    IndexSpec(lines[k], Marker);
    [lines[k][..Index(lines[k], Marker)]] + lines[k + 1..]
  }

  /** The names the generator emits for `lines`, in order. */
  function Names(lines: seq<string>): seq<string> {
    var a := Activation(lines);
    if a.None? then []
    else
      ActivationSpec(lines);
      TakeNames(Processed(lines, a.value))
  }

  /** Go's %q of a name made of letters and digits. */
  function Quote(name: string): string {
    "\"" + name + "\""
  }

  /** One table entry; the first one is keyed by obj.A_ARCHSPECIFIC. */
  function Entry(name: string, isFirst: bool): string {
    if isFirst then "\tobj.A_ARCHSPECIFIC: " + Quote(name) + ",\n"
    else "\t" + Quote(name) + ",\n"
  }

  /** The table entries for `names`, in order. */
  function Entries(names: seq<string>): seq<string> {
    seq(|names|, i requires 0 <= i < |names| => Entry(names[i], i == 0))
  }

  /** The generated file's header, written when the scan switches on. */
  function Header(input: string, output: string, pkg: string): string {
    "// Code generated by stringer -i " + input + " -o " + output + " -p " + pkg
    + "; DO NOT EDIT.\n\npackage " + pkg
    + "\n\nimport \"github.com/wdvxdr1123/golang-asm/obj\"\n\nvar Anames = []string{\n"
  }

  /** Everything the generator writes, chunk by chunk, given the formatted header. */
  function Output(lines: seq<string>, header: string): seq<string> {
    (if Activation(lines).Some? then [header] else [])
    + Entries(Names(lines)) + ["}\n"]
  }

  // ---------------------------------------------------------------------
  // Properties of the declarative scan

  /** Prepending lines without the marker shifts the activating line and nothing else. */
  lemma ActivationShift(pre: seq<string>, rest: seq<string>)
    requires forall j :: 0 <= j < |pre| ==> Index(pre[j], Marker) < 0
    ensures Activation(rest).None? ==> Activation(pre + rest).None?
    ensures Activation(rest).Some? ==> Activation(pre + rest) == Some(|pre| + Activation(rest).value)
  {
    var all := pre + rest;
    ActivationSpec(rest);
    ActivationSpec(all);
    assert forall j :: |pre| <= j < |all| ==> all[j] == rest[j - |pre|];
    assert forall j :: 0 <= j < |pre| ==> all[j] == pre[j];
    if Activation(rest).Some? {
      var m := |pre| + Activation(rest).value;
      assert forall j :: 0 <= j < m ==> Index(all[j], Marker) < 0;
      ActivationAt(all, m);
    }
  }

  /** Lines before the activating one contribute no names. */
  lemma InactiveLinesIgnored(pre: seq<string>, rest: seq<string>)
    requires forall j :: 0 <= j < |pre| ==> Index(pre[j], Marker) < 0
    ensures Names(pre + rest) == Names(rest)
  {
    ActivationShift(pre, rest);
    if Activation(rest).Some? {
      var k := Activation(rest).value;
      ActivationSpec(rest);
      var all := pre + rest;
      assert all[|pre| + k] == rest[k];
      assert all[|pre| + k + 1..] == rest[k + 1..];
      assert Processed(all, |pre| + k) == Processed(rest, k);
    }
  }

  /**
   * The shape of the output: the header exactly when some line holds the
   * marker, then one entry per name, and the closing brace always last;
   * with no marker in the input only the closing brace is written.
   */
  lemma OutputShape(lines: seq<string>, header: string)
    ensures var out := Output(lines, header);
      && |out| == (if Activation(lines).Some? then 1 else 0) + |Names(lines)| + 1
      && out[|out| - 1] == "}\n"
      && (Activation(lines).Some? ==> out[0] == header)
      && (Activation(lines).None? ==> out == ["}\n"])
  {
    var a := Activation(lines);
    if a.None? {
      assert Names(lines) == [];
      assert Entries([]) == [];
    }
  }

  /** Lines before the activating one leave the written output unchanged. */
  lemma InactiveLinesOutput(pre: seq<string>, rest: seq<string>, header: string)
    requires forall j :: 0 <= j < |pre| ==> Index(pre[j], Marker) < 0
    ensures Output(pre + rest, header) == Output(rest, header)
  {
    ActivationShift(pre, rest);
    InactiveLinesIgnored(pre, rest);
  }

  /** The scan starts at the activating line: everything before it can be dropped. */
  lemma ScanStartsAtActivation(lines: seq<string>, k: nat)
    requires Activation(lines) == Some(k)
    ensures k < |lines| && Index(lines[k], Marker) >= 0
    ensures Names(lines) == Names(lines[k..])
    ensures Activation(lines[k..]) == Some(0)
  {
    ActivationSpec(lines);
    SplitAt(lines, k);
    InactiveLinesIgnored(lines[..k], lines[k..]);
    ActivationShift(lines[..k], lines[k..]);
  }

  /**
   * The table has one entry per name, in order; only the first is keyed
   * by obj.A_ARCHSPECIFIC.
   */
  lemma EntriesShape(names: seq<string>)
    ensures |Entries(names)| == |names|
    ensures names != [] ==> Entries(names)[0] == "\tobj.A_ARCHSPECIFIC: \"" + names[0] + "\",\n"
    ensures forall i :: 0 < i < |names| ==> Entries(names)[i] == "\t\"" + names[i] + "\",\n"
  {
  }

  /** Appending one name appends one entry, keyed only if it is the first. */
  lemma EntriesSnoc(names: seq<string>, n: string)
    ensures Entries(names + [n]) == Entries(names) + [Entry(n, names == [])]
  {
    var l, r := Entries(names + [n]), Entries(names) + [Entry(n, names == [])];
    forall i | 0 <= i < |l| ensures l[i] == r[i] {
      if i < |names| {
        assert (names + [n])[i] == names[i];
      }
    }
  }

  // ---------------------------------------------------------------------
  // The scan as the loop runs it

  /**
   * The loop's state: whether the scan is on, whether it has stopped, and
   * the names emitted so far (the `first` flag is "no name emitted yet").
   */
  datatype ScanState = ScanState(on: bool, stopped: bool, names: seq<string>)

  const Start := ScanState(false, false, [])

  /** The effect of one verdict on the state. */
  function Apply(st: ScanState, v: Verdict): ScanState {
    match v
    case Stop => st.(stopped := true)
    case Skip => st
    case Name(n) => st.(names := st.names + [n])
  }

  /**
   * One iteration of the loop: nothing once stopped; while off, a line
   * without the marker is skipped and the first line with it switches the
   * scan on and is processed cut before the marker; once on, every line is
   * processed whole.
   */
  function Step(st: ScanState, line: string): ScanState {
    if st.stopped then st
    else
      var index := Index(line, Marker);
      IndexSpec(line, Marker);
      if !st.on && index < 0 then st
      else Apply(st.(on := true), Classify(if st.on then line else line[..index]))
  }

  /**
   * A step never forgets: once stopped nothing changes; an inactive line
   * while off changes nothing; the scan is on afterwards exactly when it
   * was on or the line holds the marker; names only grow, by at most one.
   */
  lemma StepMonotone(st: ScanState, line: string)
    ensures st.stopped ==> Step(st, line) == st
    ensures !st.on && Index(line, Marker) < 0 ==> Step(st, line) == st
    ensures !st.stopped ==> (Step(st, line).on <==> st.on || Index(line, Marker) >= 0)
    ensures st.names <= Step(st, line).names && |Step(st, line).names| <= |st.names| + 1
  {
  }

  /** The loop run over `lines` from state `st`. */
  function Run(st: ScanState, lines: seq<string>): ScanState
    decreases |lines|
  {
    if lines == [] then st else Run(Step(st, lines[0]), lines[1..])
  }

  /** After the termination condition no line changes the state. */
  lemma {:induction false} StoppedAbsorbs(st: ScanState, lines: seq<string>)
    requires st.stopped
    ensures Run(st, lines) == st
    decreases |lines|
  {
    if lines != [] {
      StoppedAbsorbs(Step(st, lines[0]), lines[1..]);
    }
  }

  /** The loop while on, fed the lines' verdicts instead of the lines. */
  function Feed(st: ScanState, vs: seq<Verdict>): ScanState
    decreases |vs|
  {
    if vs == [] || st.stopped then st else Feed(Apply(st, vs[0]), vs[1..])
  }

  /** Fed verdicts, the running state collects exactly Collect's names. */
  lemma {:induction false} FeedCollects(st: ScanState, vs: seq<Verdict>)
    requires !st.stopped
    ensures Feed(st, vs).on == st.on
    ensures Feed(st, vs).names == st.names + Collect(vs)
    decreases |vs|
  {
    if vs == [] || vs[0].Stop? {
      assert st.names + [] == st.names;
    } else {
      FeedCollects(Apply(st, vs[0]), vs[1..]);
      if vs[0].Name? {
        assert st.names + [vs[0].name] + Collect(vs[1..]) == st.names + ([vs[0].name] + Collect(vs[1..]));
      }
    }
  }

  /** Once on, running the lines is feeding their verdicts. */
  lemma {:induction false} RunIsFeed(st: ScanState, ls: seq<string>)
    requires st.on
    ensures Run(st, ls) == Feed(st, Verdicts(ls))
    decreases |ls|
  {
    if ls != [] {
      VerdictsCons(ls);
      AppendFront([Classify(ls[0])], Verdicts(ls[1..]));
      if st.stopped {
        StoppedAbsorbs(st, ls);
      } else {
        RunIsFeed(Apply(st, Classify(ls[0])), ls[1..]);
      }
    }
  }

  /** Once on, the loop emits exactly the names of the declarative scan. */
  lemma RunWhileOn(st: ScanState, ls: seq<string>)
    requires st.on && !st.stopped
    ensures Run(st, ls).on
    ensures Run(st, ls).names == st.names + TakeNames(ls)
  {
    RunIsFeed(st, ls);
    FeedCollects(st, Verdicts(ls));
  }

  /**
   * The loop and the declarative description agree on every input: it
   * switches on exactly when some line holds the marker, and it emits
   * exactly Names(lines).
   */
  lemma {:induction false} RunMatchesNames(lines: seq<string>)
    ensures Run(Start, lines).on <==> Activation(lines).Some?
    ensures Run(Start, lines).names == Names(lines)
    decreases |lines|
  {
    if lines != [] {
      var index := Index(lines[0], Marker);
      if index < 0 {
        SplitAt(lines, 1);
        ActivationShift(lines[..1], lines[1..]);
        InactiveLinesIgnored(lines[..1], lines[1..]);
        RunMatchesNames(lines[1..]);
      } else {
        ActivationAt(lines, 0);
        IndexSpec(lines[0], Marker);
        var on := ScanState(true, false, []);
        var p := Processed(lines, 0);
        assert p[0] == lines[0][..index] && p[1..] == lines[1..];
        assert Step(Start, lines[0]) == Step(on, p[0]);
        assert Run(Start, lines) == Run(on, p);
        RunWhileOn(on, p);
      }
    }
  }

  /** Running lines from a state is one Step on the first line, then the rest. */
  lemma RunFirst(st: ScanState, line: string, rest: seq<string>)
    ensures Run(st, [line] + rest) == Run(Step(st, line), rest)
  {
    AppendFront([line], rest);
  }

  /** What the loop has written by the time it has emitted `names`. */
  function Written(on: bool, header: string, names: seq<string>): seq<string> {
    (if on then [header] else []) + Entries(names)
  }

  /**
   * The body of the main loop, for one input line: while off, a line
   * without the marker is skipped and the one holding it switches the scan
   * on, writes the header and is cut before the marker; the comments are
   * then cut off, the termination test is applied, and a matching line
   * writes its entry, keyed by obj.A_ARCHSPECIFIC only while `first`.
   * It performs exactly one Step of the scan: a run over this line and any
   * `rest` either ends here, stopped, or goes on over `rest` from the new
   * state, and what has been written stays the header and the entries of
   * the names emitted so far.
   */
  method ScanLine(on: bool, first: bool, line: string, header: string, out: seq<string>,
                  ghost names: seq<string>, ghost rest: seq<string>)
    returns (nowOn: bool, nowFirst: bool, stop: bool, written: seq<string>, ghost nowNames: seq<string>)
    requires !on ==> names == []
    requires first <==> names == []
    requires out == Written(on, header, names)
    ensures stop ==> Run(ScanState(on, false, names), [line] + rest) == ScanState(nowOn, true, nowNames)
    ensures !stop ==>
      Run(ScanState(on, false, names), [line] + rest) == Run(ScanState(nowOn, false, nowNames), rest)
    ensures !nowOn ==> nowNames == []
    ensures nowFirst <==> nowNames == []
    ensures written == Written(nowOn, header, nowNames)
    ensures on ==> nowOn
    ensures !nowOn ==> !stop && nowFirst == first && written == out
  {
    RunFirst(ScanState(on, false, names), line, rest);
    nowOn, nowFirst, stop, written, nowNames := on, first, false, out, names;
    var l := line;
    if !on {
      // The marker's own '=' must not stop the scan: the line is cut there.
      var index := Index(l, Marker);
      if index < 0 {
        return;
      }
      IndexSpec(l, Marker);
      written := written + [header];
      nowOn := true;
      l := l[..index];
    }
    l := Cut(l, "//");
    l := Cut(l, "/*");
    if (|l| > 0 && l[0] == '}') || '=' in l {
      stop := true;
      StoppedAbsorbs(ScanState(nowOn, true, names), rest);
      return;
    }
    var sub := MatchAre(l);
    if sub.None? {
      return;
    }
    if first {
      written := written + [Entry(sub.value, true)];
      nowFirst := false;
    } else {
      written := written + [Entry(sub.value, false)];
    }
    EntriesSnoc(names, sub.value);
    nowNames := names + [sub.value];
  }

  /** The loop's final state determines everything written. */
  lemma OutputFromRun(lines: seq<string>, header: string)
    ensures Output(lines, header) == Written(Run(Start, lines).on, header, Run(Start, lines).names) + ["}\n"]
    ensures Run(Start, lines).on <==> Activation(lines).Some?
  {
    RunMatchesNames(lines);
  }

  /**
   * The generator's main loop over the input lines, given the header the
   * program formats from its flags (file reading, flag parsing and the
   * writer are left out).  The written chunks are the header once the
   * marker is found, one entry per name, and the closing brace, which is
   * always written.
   */
  method Generate(lines: seq<string>, header: string) returns (out: seq<string>)
    ensures out == Output(lines, header)
  {
    var on := false;
    var first := true;
    out := [];
    ghost var names: seq<string> := [];
    var i := 0;
    while i < |lines|
      invariant 0 <= i <= |lines|
      invariant Run(ScanState(on, false, names), lines[i..]) == Run(Start, lines)
      invariant !on ==> names == []
      invariant first <==> names == []
      invariant out == Written(on, header, names)
    {
      DropFront(lines, i);
      var stop;
      on, first, stop, out, names := ScanLine(on, first, lines[i], header, out, names, lines[i + 1..]);
      if stop {
        break;
      }
      i := i + 1;
    }
    assert lines[|lines|..] == [];
    OutputFromRun(lines, header);
    out := out + ["}\n"];
  }

  /** The whole generated text for `lines` under the given flags. */
  method GenerateFile(lines: seq<string>, input: string, output: string, pkg: string)
    returns (out: seq<string>)
    ensures out == Output(lines, Header(input, output, pkg))
    ensures Activation(lines).Some? ==> out[0] == Header(input, output, pkg)
  {
    out := Generate(lines, Header(input, output, pkg));
    OutputShape(lines, Header(input, output, pkg));
  }
}
