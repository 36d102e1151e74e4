/**
 * The instruction-stream builder of golang-asm (builder.go).
 *
 * A Builder owns a fixed block of instruction records that it hands out one
 * slot at a time (a bump allocator with a cursor `used`), falls back to the
 * link context's own allocator once the block is exhausted, and keeps the
 * records the caller appends as an intrusive singly-linked list
 * (`first`, `last`, `Prog.Link`).  Assembly hands that list and the same
 * allocator to an architecture backend whose encoding is not modelled.
 */
module Asm {

  /** Every element of `s` occurs once. */
  ghost predicate Distinct<T>(s: seq<T>) {
    forall i, j :: 0 <= i < j < |s| ==> s[i] != s[j]
  }

  /** `s` is linked in order: each record's Link is the next record. */
  ghost predicate Chained(s: seq<Prog>)
    reads s
  {
    forall i :: 0 <= i < |s| - 1 ==> s[i].Link == s[i + 1]
  }

  /**
   * The records met by following Link from `p`, at most `n` of them,
   * stopping early at nil.
   */
  ghost function Walk(p: Prog?, n: nat): seq<Prog>
    reads *
    decreases n
  {
    if p == null || n == 0 then [] else [p] + Walk(p.Link, n - 1)
  }

  /**
   * Following Link from the head of a chained, duplicate-free sequence
   * visits exactly that sequence, in order; when its tail's Link is nil the
   * walk stops there however far it is allowed to go.
   */
  lemma {:induction false} WalkChain(s: seq<Prog>, n: nat)
    requires s != [] && Chained(s) && Distinct(s)
    requires n == |s| || (n > |s| && s[|s| - 1].Link == null)
    ensures Walk(s[0], n) == s
    decreases |s|
  {
    if |s| == 1 {
      assert Walk(s[0].Link, n - 1) == [];
    } else {
      assert s[0].Link == s[1..][0];
      WalkChain(s[1..], n - 1);
      assert [s[0]] + s[1..] == s;
    }
  }

  /** The link context (obj.Link); only its record allocator is modelled. */
  class Link {
    constructor ()
    {
    }

    /** Ordinary heap allocation of one zeroed record. */
    method NewProg() returns (p: Prog)
      ensures fresh(p) && p.Link == null
    {
      p := new Prog();
    }
  }

  /**
   * One instruction record (obj.Prog).  Its architecture-specific payload
   * is opaque to the builder; only the forward link and the back-reference
   * to the owning context are modelled.
   */
  class Prog {
    var Link: Prog?
    var Ctxt: Link?

    /** A zeroed record, as `make` and `new` produce it. */
    constructor ()
      ensures Link == null && Ctxt == null
    {
      Link := null;
      Ctxt := null;
    }
  }

  /** The function a symbol describes: its instruction list. */
  class FuncInfo {
    var Text: Prog?

    constructor (text: Prog?)
      ensures Text == text
    {
      Text := text;
    }
  }

  /** A transient symbol: its function and the bytes the backend writes. */
  class LSym {
    var Extra: FuncInfo
    var P: seq<bv8>

    constructor (fn: FuncInfo)
      ensures Extra == fn && P == []
    {
      Extra := fn;
      P := [];
    }
  }

  /**
   * An architecture backend.  Its initialisation and its encoder are
   * foreign code: their bodies are placeholders and only what the builder
   * relies on is stated.
   */
  class Arch {
    const Name: string

    constructor (name: string)
      ensures Name == name
    {
      Name := name;
    }

    /** Installs architecture defaults into the context. */
    method Init(ctxt: Link)
    {
    }

    /**
     * Encodes `s.Extra.Text` into `s.P`.  The backend holds the builder
     * only as its allocation callback: the `synth` records it synthesises
     * all come from `alloc.ProgAlloc`, one call each, so they follow the
     * block-then-fallback discipline, are new, and are bound to the
     * context; the cursor only advances and the appended list is left to
     * the builder.  How many records it needs is the encoder's business and
     * arrives as a parameter.
     */
    method Assemble(ctxt: Link, s: LSym, alloc: Builder, synth: nat)
      requires alloc.Valid()
      requires ctxt == alloc.ctxt
      requires s.Extra.Text == alloc.Root()
      modifies s, alloc, alloc.block[..]
      ensures alloc.Valid()
      ensures alloc.used == Min(old(alloc.used) + synth, alloc.block.Length)
      ensures old(alloc.Handed) <= alloc.Handed && |alloc.Handed| == |old(alloc.Handed)| + synth
      ensures alloc.first == old(alloc.first) && alloc.last == old(alloc.last)
      ensures alloc.Contents == old(alloc.Contents)
      ensures forall q :: q in alloc.Handed - old(alloc.Handed) ==>
        q.Ctxt == alloc.ctxt && (fresh(q) || q in alloc.block[..])
    {
      var k := 0;
      while k < synth
        invariant k <= synth
        invariant alloc.Valid()
        invariant alloc.used == Min(old(alloc.used) + k, alloc.block.Length)
        invariant old(alloc.Handed) <= alloc.Handed && |alloc.Handed| == |old(alloc.Handed)| + k
        invariant alloc.first == old(alloc.first) && alloc.last == old(alloc.last)
        invariant alloc.Contents == old(alloc.Contents)
        invariant forall q :: q in alloc.Handed - old(alloc.Handed) ==>
          q.Ctxt == alloc.ctxt && (fresh(q) || q in alloc.block[..])
      {
        var p := alloc.ProgAlloc();
        k := k + 1;
      }
    }
  }

  function Min(a: int, b: int): int {
    if a < b then a else b
  }

  /** Resolves an architecture by name (arch.Set); foreign code. */
  method ArchSet(name: string) returns (a: Arch)
    ensures fresh(a) && a.Name == name
  {
    a := new Arch(name);
  }

  /** `n` fresh, zeroed, pairwise distinct records: the block `make` creates. */
  method ZeroedRecords(n: nat) returns (s: seq<Prog>)
    ensures |s| == n && Distinct(s)
    ensures forall i :: 0 <= i < n ==> fresh(s[i]) && s[i].Link == null && s[i].Ctxt == null
  {
    s := [];
    while |s| < n
      invariant |s| <= n && Distinct(s)
      invariant forall i :: 0 <= i < |s| ==> fresh(s[i]) && s[i].Link == null && s[i].Ctxt == null
    {
      var p := new Prog();
      s := s + [p];
    }
  }

  class Builder {
    const ctxt: Link
    const arch: Arch

    var first: Prog?
    var last: Prog?

    /** The bulk allocator: a fixed block and the count of slots issued. */
    const block: array<Prog>
    var used: nat

    /** The records appended so far, in append order. */
    ghost var Contents: seq<Prog>
    /** Every record the allocator has handed out, from either path. */
    ghost var Handed: set<Prog>

    /**
     * The cursor is within the block; the slots below it are exactly the
     * issued ones; an unissued slot is still zeroed and not on the list;
     * the list is `Contents`, linked in order from `first` to `last`.
     */
    ghost predicate Valid()
      reads this, block, block[..], Contents
    {
      && used <= block.Length
      && Distinct(block[..])
      && (forall i :: 0 <= i < used ==> block[i] in Handed)
      && (forall i :: used <= i < block.Length ==> block[i] !in Handed)
      && (forall i :: used <= i < block.Length ==> block[i].Link == null && block[i].Ctxt == null && block[i] !in Contents)
      && (first == null <==> Contents == [])
      && (Contents == [] ==> last == null)
      && (Contents != [] ==> first == Contents[0] && last == Contents[|Contents| - 1])
      && Distinct(Contents)
      && Chained(Contents)
    }

    /** NewBuilder: binds a backend and a fresh context, and a block of `cacheSize` slots. */
    constructor (archStr: string, cacheSize: nat)
      ensures Valid()
      ensures fresh(block) && block.Length == cacheSize && used == 0
      ensures forall i :: 0 <= i < cacheSize ==> fresh(block[i]) && block[i].Link == null && block[i].Ctxt == null
      ensures arch.Name == archStr && fresh(ctxt)
      ensures first == null && last == null && Contents == [] && Handed == {}
    {
      var a := ArchSet(archStr);
      var c := new Link();
      a.Init(c);
      var slots := ZeroedRecords(cacheSize);
      block := new Prog[cacheSize](i requires 0 <= i < cacheSize => slots[i]);
      ctxt := c;
      arch := a;
      first, last := null, null;
      used := 0;
      Contents, Handed := [], {};
      new;
      assert block[..] == slots;
    }

    /** The head of the instruction list, nil when nothing was appended. */
    function Root(): (r: Prog?)
      requires Valid()
      reads this, block, block[..], Contents
      ensures r == null <==> Contents == []
      ensures r != null ==> r == Contents[0]
    {
      first
    }

    /**
     * Following Link from Root visits exactly the appended records in
     * append order, and `last` is the final one; if the final record's Link
     * is nil the walk ends there.
     */
    lemma RootWalk(n: nat)
      requires Valid()
      requires n == |Contents| || (n > |Contents| && (last == null || last.Link == null))
      ensures Walk(Root(), n) == Contents
      ensures Contents != [] ==> last == Contents[|Contents| - 1]
    {
      if Contents != [] {
        WalkChain(Contents, n);
      }
    }

    /**
     * The allocator.  While the block has unissued slots it returns the
     * next one and advances the cursor by one; afterwards it returns a
     * fresh record from the context and leaves the cursor alone.  Either
     * way the record is new to the caller, empty, and bound to this
     * context; no other slot is touched.
     */
    method ProgAlloc() returns (p: Prog)
      requires Valid()
      modifies this, if used < block.Length then {block[used]} else {}
      ensures Valid()
      ensures p.Ctxt == ctxt && p.Link == null
      ensures p !in old(Handed) && Handed == old(Handed) + {p}
      ensures old(used) < block.Length ==> p == block[old(used)] && used == old(used) + 1
      ensures old(used) >= block.Length ==> fresh(p) && used == old(used)
      ensures block[..] == old(block[..])
      ensures first == old(first) && last == old(last) && Contents == old(Contents)
    {
      if used >= block.Length {
        p := ctxt.NewProg();
      } else {
        p := block[used];
        used := used + 1;
      }
      p.Ctxt := ctxt;
      Handed := Handed + {p};
    }

    /** NewProg: a new record for the caller to populate, from ProgAlloc. */
    method NewProg() returns (p: Prog)
      requires Valid()
      modifies this, if used < block.Length then {block[used]} else {}
      ensures Valid()
      ensures p.Ctxt == ctxt && p.Link == null
      ensures p !in old(Handed) && Handed == old(Handed) + {p}
      ensures old(used) < block.Length ==> p == block[old(used)] && used == old(used) + 1
      ensures old(used) >= block.Length ==> fresh(p) && used == old(used)
      ensures block[..] == old(block[..])
      ensures first == old(first) && last == old(last) && Contents == old(Contents)
    {
      p := ProgAlloc();
    }

    /**
     * Appends `p` at the tail.  On an empty list `p` becomes head and
     * tail; otherwise the old tail's Link is set to `p` and `p` becomes the
     * tail, the head staying put.  `p` must not already be on the list,
     * and cannot be a slot the allocator has not issued yet: the block is
     * private to the builder.  `p`'s own Link is left as it is.
     */
    method AddInstruction(p: Prog)
      requires Valid()
      requires p !in Contents && p !in block[used..]
      modifies this, last
      ensures Valid()
      ensures Contents == old(Contents) + [p]
      ensures p.Link == old(p.Link) && p.Ctxt == old(p.Ctxt)
      ensures old(last) != null ==> old(last).Ctxt == old(last.Ctxt)
      ensures old(first) == null ==> first == p && last == p
      ensures old(first) != null ==> first == old(first) && last == p && old(last).Link == p
      ensures used == old(used) && Handed == old(Handed)
    {
      if first == null {
        first := p;
        last := p;
      } else {
        last.Link := p;
        last := p;
      }
      Contents := Contents + [p];
    }

    /**
     * Builds the transient symbol whose function text is the list's head
     * and hands it, with this builder's allocator, to the backend; returns
     * the bytes the backend wrote.  The `synth` records the backend
     * synthesises are issued exactly as NewProg would issue them; the
     * list is untouched.
     */
    method Assemble(synth: nat) returns (code: seq<bv8>)
      requires Valid()
      modifies this, block[..]
      ensures Valid()
      ensures used == Min(old(used) + synth, block.Length)
      ensures old(Handed) <= Handed && |Handed| == |old(Handed)| + synth
      ensures first == old(first) && last == old(last) && Contents == old(Contents)
      ensures forall q :: q in Handed - old(Handed) ==> q.Ctxt == ctxt && (fresh(q) || q in block[..])
    {
      var fn := new FuncInfo(first);
      var s := new LSym(fn);
      arch.Assemble(ctxt, s, this, synth);
      code := s.P;
    }
  }
}
