/** Section layout by relaxation: resolve_section of c/vasm/vasm.c. */
module Relaxation {
  import opened Alignment

  const MAXPASSES := 1000
  const FASTOPTPHASE := 50
  const MAXSIZECHANGES := 5

  /** Fixed: data and atoms without a size; Flexible: offsets, whose size is computed. */
  datatype Kind =
    | Label(sym: nat)
    | Instruction
    | Space(maxAlign: nat)
    | Rorg(addr: nat)
    | RorgEnd
    | Fixed(size: nat)
    | Flexible

  datatype Atom = Atom(kind: Kind, align: nat)

  /** What the size of an atom may depend on: the symbols' addresses, its own address,
      the section's flag for absolute code, and the flag set for atoms that changed too
      often. Computing it may report errors. */
  datatype Context = Context(labels: seq<nat>, pc: nat, absolute: bool, warn: bool)

  type Sizes = (nat, Context) -> (nat, nat)

  /** atom_size: the size of the k-th atom and the number of errors reported. */
  function AtomSize(atoms: seq<Atom>, sizes: Sizes, k: nat, c: Context): (nat, nat)
    requires k < |atoms|
  {
    match atoms[k].kind
    case Label(_) => (0, 0)
    case Rorg(_) => (0, 0)
    case RorgEnd => (0, 0)
    case Fixed(n) => (n, 0)
    case _ => sizes(k, c)
  }

  /** The address of an atom; only space may limit how far it is moved. */
  function AtomPc(a: Atom, pc: nat): nat {
    PcAlign(pc, a.align, if a.kind.Space? then a.kind.maxAlign else 0)
  }

  // ----- the layout that sizes determine -----

  /** The address counter, the address set by an open RORG (0: none) and the one it
      replaced, and the flag for absolute code. */
  datatype Cursor = Cursor(pc: nat, rorg: nat, org: nat, absolute: bool)

  /** Inside a RORG block the counter has not moved back. */
  predicate IsCursor(c: Cursor) {
    c.rorg != 0 ==> c.rorg <= c.pc
  }

  /** Alignment and change of origin before an atom. */
  function Enter(c: Cursor, a: Atom): (r: Cursor)
    requires IsCursor(c)
    ensures IsCursor(r)
  {
    var pc := AtomPc(a, c.pc);
    match a.kind
    case Rorg(addr) => Cursor(addr, addr, pc, true)
    case RorgEnd => if c.rorg != 0 then Cursor(c.org + (pc - c.rorg), 0, c.org, false) else c.(pc := pc)
    case _ => c.(pc := pc)
  }

  function Advance(c: Cursor, size: nat): (r: Cursor)
    requires IsCursor(c)
    ensures IsCursor(r)
  {
    c.(pc := c.pc + size)
  }

  /** The end of a section closes an open RORG block. */
  function Close(c: Cursor): (r: Cursor)
    requires IsCursor(c)
    ensures r.rorg == 0
  {
    if c.rorg != 0 then Cursor(c.org + (c.pc - c.rorg), 0, c.org, false) else c
  }

  /** The cursor before the k-th atom. */
  function At(atoms: seq<Atom>, lastsize: seq<nat>, start: Cursor, k: nat): (r: Cursor)
    requires k <= |atoms| == |lastsize| && IsCursor(start)
    ensures IsCursor(r)
  {
    if k == 0 then start
    else Advance(Enter(At(atoms, lastsize, start, k - 1), atoms[k - 1]), lastsize[k - 1])
  }

  /** The k-th atom's own cursor. */
  function Place(atoms: seq<Atom>, lastsize: seq<nat>, start: Cursor, k: nat): (r: Cursor)
    requires k < |atoms| == |lastsize| && IsCursor(start)
    ensures IsCursor(r)
  {
    Enter(At(atoms, lastsize, start, k), atoms[k])
  }

  /** The layout up to an atom depends on the sizes before it only. */
  lemma {:induction false} AtDependsOnPrefix(atoms: seq<Atom>, s: seq<nat>, t: seq<nat>, start: Cursor, k: nat)
    requires k <= |atoms| == |s| == |t| && IsCursor(start) && forall i :: 0 <= i < k ==> s[i] == t[i]
    ensures At(atoms, s, start, k) == At(atoms, t, start, k)
  {
    if k > 0 {
      AtDependsOnPrefix(atoms, s, t, start, k - 1);
    }
  }

  predicate HasNoRorg(atoms: seq<Atom>) {
    forall k :: 0 <= k < |atoms| ==> !atoms[k].kind.Rorg?
  }

  /** Without RORG, atoms follow each other without overlap, each on a multiple of its
      alignment. */
  lemma {:induction false} AtomsDoNotOverlap(atoms: seq<Atom>, s: seq<nat>, start: Cursor, j: nat, k: nat)
    requires j < k < |atoms| == |s| && start.rorg == 0 && HasNoRorg(atoms)
    ensures Place(atoms, s, start, j).pc + s[j] <= Place(atoms, s, start, k).pc
    decreases k
  {
    NoRorgOpen(atoms, s, start, k);
    NoRorgOpen(atoms, s, start, j + 1);
    if j < k - 1 {
      NoRorgOpen(atoms, s, start, k - 1);
      AtomsDoNotOverlap(atoms, s, start, j, k - 1);
    }
  }

  lemma {:induction false} NoRorgOpen(atoms: seq<Atom>, s: seq<nat>, start: Cursor, k: nat)
    requires k <= |atoms| == |s| && start.rorg == 0 && HasNoRorg(atoms)
    ensures At(atoms, s, start, k).rorg == 0 && At(atoms, s, start, k).absolute == start.absolute
  {
    if k > 0 {
      NoRorgOpen(atoms, s, start, k - 1);
    }
  }

  lemma PlaceIsAligned(atoms: seq<Atom>, s: seq<nat>, start: Cursor, k: nat)
    requires k < |atoms| == |s| && start.rorg == 0 && HasNoRorg(atoms)
    requires atoms[k].align > 0 && !(atoms[k].kind.Space? && atoms[k].kind.maxAlign > 0)
    ensures Place(atoms, s, start, k).pc % atoms[k].align == 0
  {
    NoRorgOpen(atoms, s, start, k);
    hide Balign;
    BalignIsLeast(At(atoms, s, start, k).pc, atoms[k].align, 0);
  }

  // ----- RORG blocks -----

  predicate SetsOrigin(a: Atom) {
    a.kind.Rorg? && a.kind.addr != 0
  }

  /** A RORG to 0 among the first k atoms, and no other RORG after it. */
  ghost predicate ZeroOriginLast(atoms: seq<Atom>, k: nat)
    requires k <= |atoms|
  {
    exists i :: 0 <= i < k && atoms[i].kind == Rorg(0) && forall j :: i < j < k ==> !SetsOrigin(atoms[j])
  }

  predicate SetsNoOrigin(atoms: seq<Atom>, k: nat)
    requires k <= |atoms|
  {
    forall j :: 0 <= j < k ==> !SetsOrigin(atoms[j])
  }

  /** Code is absolute behind the section's end if and only if the last RORG but those to
      0 comes before one to 0, or there is none and code was absolute before: RORG 0 is
      closed neither by RORGEND nor by the end. */
  lemma {:induction false} AbsoluteIffZeroOrigin(atoms: seq<Atom>, s: seq<nat>, start: Cursor, k: nat)
    requires k <= |atoms| == |s| && start.rorg == 0
    ensures Close(At(atoms, s, start, k)).absolute <==>
      ZeroOriginLast(atoms, k) || (start.absolute && SetsNoOrigin(atoms, k))
    ensures At(atoms, s, start, k).rorg != 0 ==> !ZeroOriginLast(atoms, k) && !SetsNoOrigin(atoms, k)
  {
    if k > 0 {
      hide AtomPc;
      AbsoluteIffZeroOrigin(atoms, s, start, k - 1);
      ZeroOriginStep(atoms, k);
    }
  }

  lemma ZeroOriginStep(atoms: seq<Atom>, k: nat)
    requires 0 < k <= |atoms|
    ensures ZeroOriginLast(atoms, k) <==>
      atoms[k - 1].kind == Rorg(0) || (ZeroOriginLast(atoms, k - 1) && !SetsOrigin(atoms[k - 1]))
    ensures SetsNoOrigin(atoms, k) <==> SetsNoOrigin(atoms, k - 1) && !SetsOrigin(atoms[k - 1])
  {
    if i :| 0 <= i < k && atoms[i].kind == Rorg(0) && forall j :: i < j < k ==> !SetsOrigin(atoms[j]) {
      assert i == k - 1 || !SetsOrigin(atoms[k - 1]);
    }
  }

  /** In particular, code is not absolute if no RORG sets the address 0. */
  lemma AbsoluteIsCleared(atoms: seq<Atom>, s: seq<nat>, start: Cursor, k: nat)
    requires k <= |atoms| == |s| && start.rorg == 0 && !start.absolute
    requires forall i :: 0 <= i < k ==> atoms[i].kind != Rorg(0)
    ensures !Close(At(atoms, s, start, k)).absolute
  {
    hide At, Close;
    AbsoluteIffZeroOrigin(atoms, s, start, k);
  }

  /** A RORG block: atom i sets an origin, atom k is the next RORG or RORGEND, and it is
      a RORGEND. */
  predicate IsBlock(atoms: seq<Atom>, i: nat, k: nat) {
    && i < k < |atoms| && atoms[i].kind.Rorg? && atoms[k].kind.RorgEnd?
    && forall j :: i < j < k ==> !atoms[j].kind.Rorg? && !atoms[j].kind.RorgEnd?
  }

  lemma {:induction false} InsideBlock(atoms: seq<Atom>, s: seq<nat>, start: Cursor, i: nat, k: nat)
    requires i < k <= |atoms| == |s| && IsCursor(start) && atoms[i].kind.Rorg?
    requires forall j :: i < j < k ==> !atoms[j].kind.Rorg? && !atoms[j].kind.RorgEnd?
    ensures var c, r := At(atoms, s, start, k), Place(atoms, s, start, i);
      c.rorg == atoms[i].kind.addr <= c.pc && c.org == r.org && c.absolute
    ensures Place(atoms, s, start, i).org == AtomPc(atoms[i], At(atoms, s, start, i).pc)
    decreases k
  {
    hide AtomPc;
    if k > i + 1 {
      InsideBlock(atoms, s, start, i, k - 1);
      AlignedForward(atoms[k - 1], At(atoms, s, start, k - 1).pc);
    }
  }

  /** RORGEND goes on behind the block's bytes, counted from where the block was met, if
      and only if the block's address is not 0 or was met at 0. */
  lemma BlockEnds(atoms: seq<Atom>, s: seq<nat>, start: Cursor, i: nat, k: nat)
    requires |atoms| == |s| && IsCursor(start) && IsBlock(atoms, i, k)
    ensures var inside := AtomPc(atoms[k], At(atoms, s, start, k).pc);
      var org := AtomPc(atoms[i], At(atoms, s, start, i).pc);
      var addr := atoms[i].kind.addr;
      addr <= inside && (Place(atoms, s, start, k).pc == org + (inside - addr) <==> addr != 0 || org == 0)
    ensures !Place(atoms, s, start, k).absolute <==> atoms[i].kind.addr != 0
  {
    InsideBlock(atoms, s, start, i, k);
    AlignedForward(atoms[k], At(atoms, s, start, k).pc);
    hide AtomPc, At;
  }

  /** An example: four bytes in a block for address 0, met at address 8. Behind it the counter
      is 4, not 12, and code is still absolute. */
  lemma RorgToZeroStaysOpen()
    ensures var atoms := [Atom(Rorg(0), 0), Atom(Fixed(4), 0), Atom(RorgEnd, 0)];
      var c := Close(At(atoms, [0, 4, 0], Cursor(8, 0, 0, false), 3));
      c.pc == 4 && c.absolute
  {
    var atoms := [Atom(Rorg(0), 0), Atom(Fixed(4), 0), Atom(RorgEnd, 0)];
    var start := Cursor(8, 0, 0, false);
    assert At(atoms, [0, 4, 0], start, 0) == start;
    assert At(atoms, [0, 4, 0], start, 1) == Cursor(0, 0, 8, true);
    assert At(atoms, [0, 4, 0], start, 2) == Cursor(4, 0, 8, true);
  }

  lemma AlignedForward(a: Atom, pc: nat)
    ensures AtomPc(a, pc) >= pc
  {
  }

  // ----- relaxation -----

  /** Too many passes and nested RORGs are fatal errors: the assembler ends. */
  datatype Outcome = Resolved | TooManyPasses | NestedRorg | Errors(n: nat)

  /** Every label stands at the address that the sizes give it. */
  ghost predicate LabelsAreInPlace(atoms: seq<Atom>, labels: seq<nat>, lastsize: seq<nat>, start: Cursor, k: nat)
    requires k <= |atoms| == |lastsize| && IsCursor(start)
  {
    forall i :: 0 <= i < k && atoms[i].kind.Label? && atoms[i].kind.sym < |labels| ==>
      labels[atoms[i].kind.sym] == Place(atoms, lastsize, start, i).pc
  }

  function ContextAt(
      atoms: seq<Atom>, labels: seq<nat>, lastsize: seq<nat>, changes: seq<nat>, start: Cursor, k: nat): Context
    requires k < |atoms| == |lastsize| == |changes| && IsCursor(start)
  {
    var c := Place(atoms, lastsize, start, k);
    Context(labels, c.pc, c.absolute, changes[k] > MAXSIZECHANGES)
  }

  /** Computed again at these addresses, the sizes are the ones recorded. */
  ghost predicate SizesAreStable(
      atoms: seq<Atom>, sizes: Sizes, labels: seq<nat>, lastsize: seq<nat>, changes: seq<nat>, start: Cursor, k: nat)
    requires k <= |atoms| == |lastsize| == |changes| && IsCursor(start)
  {
    forall i :: 0 <= i < k ==>
      AtomSize(atoms, sizes, i, ContextAt(atoms, labels, lastsize, changes, start, i)).0 == lastsize[i]
  }

  /** At most one instruction has another size. */
  ghost predicate OneInstructionChanged(atoms: seq<Atom>, s: seq<nat>, t: seq<nat>)
    requires |atoms| == |s| == |t|
  {
    forall i, j :: 0 <= i < j < |s| && atoms[i].kind.Instruction? && atoms[j].kind.Instruction? ==>
      s[i] == t[i] || s[j] == t[j]
  }

  class Section {
    const org: nat
    const atoms: seq<Atom>
    const sizes: Sizes
    var pc: nat
    var absolute: bool
    var labels: seq<nat>     // the addresses of the symbols
    var lastsize: seq<nat>
    var changes: seq<nat>

    /** Every label has a symbol of its own. */
    ghost predicate Valid()
      reads this
    {
      && |lastsize| == |changes| == |atoms|
      && (forall k :: 0 <= k < |atoms| && atoms[k].kind.Label? ==> atoms[k].kind.sym < |labels|)
      && (forall j, k :: 0 <= j < k < |atoms| && atoms[j].kind.Label? && atoms[k].kind.Label? ==>
            atoms[j].kind.sym != atoms[k].kind.sym)
    }

    /** The k-th atom's size is computed again, or kept. */
    method Resize(k: nat, safe: bool, done0: bool) returns (size: nat, done: bool, grew: bool, e: nat)
      requires k < |atoms| == |lastsize| == |changes|
      modifies this`lastsize, this`changes
      ensures lastsize == old(lastsize)[k := size]
      ensures safe && !done0 && atoms[k].kind.Instruction? ==> size == old(lastsize[k])
      ensures done ==>
        done0 && size == old(lastsize[k]) && changes == old(changes) &&
        size == AtomSize(atoms, sizes, k, Context(labels, pc, absolute, changes[k] > MAXSIZECHANGES)).0
      ensures !safe ==> changes == old(changes)
      ensures |changes| == |old(changes)|
      ensures !done && done0 ==> size != old(lastsize[k])
    {
      if safe && !done0 && atoms[k].kind.Instruction? {
        return lastsize[k], done0, false, 0;
      }
      done, grew := done0, false;
      var warn := changes[k] > MAXSIZECHANGES;
      var r := AtomSize(atoms, sizes, k, Context(labels, pc, absolute, warn));
      size, e := r.0, r.1;
      if size != lastsize[k] {
        done := false;
        if safe {
          changes := changes[k := changes[k] + 1];
        } else if size > lastsize[k] {
          grew := true;
        }
        lastsize := lastsize[k := size];
      }
    }

    /** The address counter at an atom, and what the atom does to it. A RORG inside an
        open RORG is a fatal error, which ends the assembler. */
    method EnterAtom(k: nat, rorgPc: nat, orgPc: nat) returns (rorgPc': nat, orgPc': nat, moved: bool, nested: bool)
      requires k < |atoms| && Valid() && (rorgPc != 0 ==> rorgPc <= pc)
      modifies this`pc, this`absolute, this`labels
      ensures Valid() && |labels| == |old(labels)|
      ensures !nested ==>
        Cursor(pc, rorgPc', orgPc', absolute) == Enter(Cursor(old(pc), rorgPc, orgPc, old(absolute)), atoms[k])
      ensures labels == if atoms[k].kind.Label? then old(labels)[atoms[k].kind.sym := pc] else old(labels)
      ensures !moved ==> labels == old(labels)
      ensures nested <==> atoms[k].kind.Rorg? && rorgPc != 0
    {
      hide AtomPc;
      var p := atoms[k];
      rorgPc', orgPc', moved, nested := rorgPc, orgPc, false, false;
      pc := AtomPc(p, pc);
      AlignedForward(p, old(pc));
      if p.kind.Rorg? {
        if rorgPc != 0 {
          nested := true;
          return;
        }
        rorgPc' := p.kind.addr;
        orgPc' := pc;
        pc := rorgPc';
        absolute := true;
      } else if p.kind.RorgEnd? && rorgPc != 0 {
        pc := orgPc + (pc - rorgPc);
        rorgPc' := 0;
        absolute := false;
      } else if p.kind.Label? {
        if labels[p.kind.sym] != pc {
          moved := true;
          labels := labels[p.kind.sym := pc];
        }
      }
    }

    /** One pass over the section. Labels move, then sizes are computed again; past the
        fast phase, instructions keep their sizes once something has changed. */
    method Pass(safe: bool) returns (done: bool, grown: bool, errors: nat, nested: bool)
      requires Valid()
      modifies this`pc, this`absolute, this`labels, this`lastsize, this`changes
      ensures Valid() && |labels| == |old(labels)|
      ensures var start := Cursor(org, 0, 0, old(absolute));
        !nested ==>
          && LabelsAreInPlace(atoms, labels, lastsize, start, |atoms|)
          && Close(At(atoms, lastsize, start, |atoms|)).pc == pc
          && Close(At(atoms, lastsize, start, |atoms|)).absolute == absolute
          && (done ==> labels == old(labels) && lastsize == old(lastsize) && changes == old(changes) &&
                       SizesAreStable(atoms, sizes, labels, lastsize, changes, start, |atoms|))
      ensures safe ==> OneInstructionChanged(atoms, old(lastsize), lastsize)
      ensures !safe ==> changes == old(changes)
    {
      hide LabelsAreInPlace, SizesAreStable, OneInstructionChanged, AtomPc, AtomSize, Enter, At, Progress;
      done, grown, errors, nested := true, false, 0, false;
      ghost var start := Cursor(org, 0, 0, absolute);
      ghost var labels0, lastsize0, changes0 := labels, lastsize, changes;
      var rorgPc: nat, orgPc: nat := 0, 0;
      pc := org;
      var k := 0;
      NothingPlaced(atoms, sizes, State(labels, lastsize, changes, true), start, safe);
      ghost var was := State(labels, lastsize, changes, true);
      while k < |atoms|
        invariant 0 <= k <= |atoms| && Valid() && |labels| == |labels0|
        invariant Progress(atoms, sizes, State(labels, lastsize, changes, done), was, k, start,
          Cursor(pc, rorgPc, orgPc, absolute), safe)
      {
        ghost var before, c0 := State(labels, lastsize, changes, done), Cursor(pc, rorgPc, orgPc, absolute);
        CursorKept(atoms, sizes, before, was, k, start, c0, safe);
        var rorgPc', orgPc', moved;
        rorgPc', orgPc', moved, nested := EnterAtom(k, rorgPc, orgPc);
        if nested {
          ChangedAtMostOne(atoms, sizes, before, was, k, start, c0, safe);
          return;
        }
        rorgPc, orgPc := rorgPc', orgPc';
        ghost var c := Cursor(pc, rorgPc, orgPc, absolute);
        assert c.pc == pc && c == Enter(c0, atoms[k]);
        var size, done', grew, e := Resize(k, safe, done && !moved);
        AfterAtom(atoms, sizes, before, was, k, start, c0, safe, c, moved, size,
          State(labels, lastsize, changes, done'));
        done, grown, errors := done', grown || grew, errors + e;
        pc := pc + size;
        k := k + 1;
      }
      ProgressMeans(atoms, sizes, State(labels, lastsize, changes, done), was, start,
        Cursor(pc, rorgPc, orgPc, absolute), safe);
      if rorgPc != 0 {
        pc := orgPc + (pc - rorgPc);
        absolute := false;
      }
    }

    /** Passes until nothing changes, an error is found, or there were too many. When the
        section is resolved, every label stands in its place, and every size computed
        again at the final addresses is the one recorded. */
    method ResolveSection(errors0: nat) returns (outcome: Outcome, ghost start: Cursor)
      requires Valid()
      modifies this`pc, this`absolute, this`labels, this`lastsize, this`changes
      ensures Valid() && IsCursor(start)
      ensures outcome.Resolved? ==>
        && errors0 == 0
        && LabelsAreInPlace(atoms, labels, lastsize, start, |atoms|)
        && SizesAreStable(atoms, sizes, labels, lastsize, changes, start, |atoms|)
        && pc == Close(At(atoms, lastsize, start, |atoms|)).pc
      ensures start == Cursor(org, 0, 0, start.absolute)
      ensures !old(absolute) && start.absolute ==> ZeroOriginLast(atoms, |atoms|)
      ensures !old(absolute) && outcome.Resolved? ==> (absolute <==> ZeroOriginLast(atoms, |atoms|))
    {
      hide LabelsAreInPlace, SizesAreStable, OneInstructionChanged, At, Close, ZeroOriginLast;
      var fastphase, pass, errors := FASTOPTPHASE, 0, errors0;
      var done := false;
      start := Cursor(org, 0, 0, absolute);
      ghost var relative := !absolute;
      while true
        invariant Valid() && pass < MAXPASSES && errors >= errors0 && start == Cursor(org, 0, 0, start.absolute)
        invariant relative && (absolute || start.absolute) ==> ZeroOriginLast(atoms, |atoms|)
        decreases MAXPASSES - pass
      {
        pass := pass + 1;
        if pass >= MAXPASSES {
          return TooManyPasses, start;
        }
        var extra := pass <= fastphase;
        start := Cursor(org, 0, 0, absolute);
        var grown, found, nested;
        done, grown, found, nested := Pass(pass > fastphase);
        if nested {
          return NestedRorg, start;
        }
        AbsoluteIffZeroOrigin(atoms, lastsize, start, |atoms|);
        if grown {
          extra := false;
        }
        if extra {
          fastphase := fastphase + 1;
        }
        errors := errors + found;
        if errors != 0 {
          return Errors(errors), start;
        }
        if done {
          return Resolved, start;
        }
      }
    }
  }

  /** What a pass changes, and whether it is done. */
  datatype State = State(labels: seq<nat>, lastsize: seq<nat>, changes: seq<nat>, done: bool)

  /** What a pass has established before atom k. */
  ghost predicate Progress(
      atoms: seq<Atom>, sizes: Sizes, s: State, was: State, k: nat, start: Cursor, c: Cursor, safe: bool)
  {
    && k <= |atoms| == |s.lastsize| == |was.lastsize| == |s.changes| && IsCursor(start)
    && At(atoms, s.lastsize, start, k) == c
    && LabelsAreInPlace(atoms, s.labels, s.lastsize, start, k)
    && (forall i :: k <= i < |atoms| ==> s.lastsize[i] == was.lastsize[i])
    && (s.done ==>
          s.labels == was.labels && s.lastsize == was.lastsize && s.changes == was.changes &&
          SizesAreStable(atoms, sizes, s.labels, s.lastsize, s.changes, start, k))
    && (safe ==> OneInstructionChanged(atoms, was.lastsize, s.lastsize))
    && (!safe ==> s.changes == was.changes)
  }

  lemma NothingPlaced(atoms: seq<Atom>, sizes: Sizes, s: State, start: Cursor, safe: bool)
    requires |atoms| == |s.lastsize| == |s.changes| && IsCursor(start) && s.done
    ensures Progress(atoms, sizes, s, s, 0, start, start, safe)
  {
  }

  lemma CursorKept(atoms: seq<Atom>, sizes: Sizes, s: State, was: State, k: nat, start: Cursor, c: Cursor, safe: bool)
    requires Progress(atoms, sizes, s, was, k, start, c, safe)
    ensures IsCursor(c)
  {
  }

  lemma ChangedAtMostOne(
      atoms: seq<Atom>, sizes: Sizes, s: State, was: State, k: nat, start: Cursor, c: Cursor, safe: bool)
    requires Progress(atoms, sizes, s, was, k, start, c, safe)
    ensures |atoms| == |s.lastsize| == |was.lastsize|
    ensures safe ==> OneInstructionChanged(atoms, was.lastsize, s.lastsize)
    ensures !safe ==> s.changes == was.changes
  {
  }

  lemma ProgressMeans(atoms: seq<Atom>, sizes: Sizes, s: State, was: State, start: Cursor, c: Cursor, safe: bool)
    requires Progress(atoms, sizes, s, was, |atoms|, start, c, safe)
    ensures |atoms| == |s.lastsize| == |was.lastsize| == |s.changes| && IsCursor(start) && IsCursor(c)
    ensures LabelsAreInPlace(atoms, s.labels, s.lastsize, start, |atoms|) && At(atoms, s.lastsize, start, |atoms|) == c
    ensures s.done ==>
      s.labels == was.labels && s.lastsize == was.lastsize && s.changes == was.changes &&
      SizesAreStable(atoms, sizes, s.labels, s.lastsize, s.changes, start, |atoms|)
    ensures safe ==> OneInstructionChanged(atoms, was.lastsize, s.lastsize)
    ensures !safe ==> s.changes == was.changes
  {
  }

  lemma AfterAtom(atoms: seq<Atom>, sizes: Sizes, s: State, was: State, k: nat, start: Cursor, c0: Cursor, safe: bool,
                  c: Cursor, moved: bool, size: nat, s': State)
    requires k < |atoms| && Progress(atoms, sizes, s, was, k, start, c0, safe) && IsCursor(c0)
    requires c == Enter(c0, atoms[k])
    requires forall i, j :: 0 <= i < j < |atoms| && atoms[i].kind.Label? && atoms[j].kind.Label? ==>
      atoms[i].kind.sym != atoms[j].kind.sym
    requires atoms[k].kind.Label? ==> atoms[k].kind.sym < |s.labels|
    requires s'.labels == if atoms[k].kind.Label? then s.labels[atoms[k].kind.sym := c.pc] else s.labels
    requires !moved ==> s'.labels == s.labels
    requires s'.lastsize == s.lastsize[k := size] && |s'.changes| == |s.changes|
    requires safe && !(s.done && !moved) && atoms[k].kind.Instruction? ==> size == s.lastsize[k]
    requires s'.done ==>
      s.done && !moved && size == s.lastsize[k] && s'.changes == s.changes &&
      size == AtomSize(atoms, sizes, k, Context(s'.labels, c.pc, c.absolute, s'.changes[k] > MAXSIZECHANGES)).0
    requires !safe ==> s'.changes == s.changes
    ensures Progress(atoms, sizes, s', was, k + 1, start, Advance(c, size), safe)
  {
    hide LabelsAreInPlace, SizesAreStable, OneInstructionChanged, AtomPc, AtomSize, Enter;
    LabelPlaced(atoms, s.labels, s'.labels, s.lastsize, start, k);
    AtDependsOnPrefix(atoms, s.lastsize, s'.lastsize, start, k);
    LabelsKept(atoms, s'.labels, s.lastsize, s'.lastsize, start, k + 1);
    if safe {
      InstructionChanged(atoms, was.lastsize, s.lastsize, k, size);
    }
    if s'.done {
      assert s'.lastsize == s.lastsize;
      SizeStable(atoms, sizes, s'.labels, s'.lastsize, s'.changes, start, k);
    }
  }

  /** The k-th atom's label is moved to its place, if it is one. */
  lemma LabelPlaced(atoms: seq<Atom>, labels: seq<nat>, labels': seq<nat>, s: seq<nat>, start: Cursor, k: nat)
    requires k < |atoms| == |s| && IsCursor(start) && |labels| == |labels'|
    requires forall i, j :: 0 <= i < j < |atoms| && atoms[i].kind.Label? && atoms[j].kind.Label? ==>
      atoms[i].kind.sym != atoms[j].kind.sym
    requires LabelsAreInPlace(atoms, labels, s, start, k)
    requires if atoms[k].kind.Label? then
        atoms[k].kind.sym < |labels| && labels' == labels[atoms[k].kind.sym := Place(atoms, s, start, k).pc]
      else labels' == labels
    ensures LabelsAreInPlace(atoms, labels', s, start, k + 1)
  {
    hide Place;
  }

  lemma LabelsKept(atoms: seq<Atom>, labels: seq<nat>, s: seq<nat>, t: seq<nat>, start: Cursor, k: nat)
    requires 0 < k <= |atoms| == |s| == |t| && IsCursor(start) && forall i :: 0 <= i < k - 1 ==> s[i] == t[i]
    requires LabelsAreInPlace(atoms, labels, s, start, k)
    ensures LabelsAreInPlace(atoms, labels, t, start, k)
  {
    hide Enter;
    forall i | 0 <= i < k
      ensures Place(atoms, s, start, i) == Place(atoms, t, start, i)
    {
      AtDependsOnPrefix(atoms, s, t, start, i);
    }
  }

  lemma SizeStable(
      atoms: seq<Atom>, sizes: Sizes, labels: seq<nat>, s: seq<nat>, changes: seq<nat>, start: Cursor, k: nat)
    requires k < |atoms| == |s| == |changes| && IsCursor(start)
    requires SizesAreStable(atoms, sizes, labels, s, changes, start, k)
    requires AtomSize(atoms, sizes, k, ContextAt(atoms, labels, s, changes, start, k)).0 == s[k]
    ensures SizesAreStable(atoms, sizes, labels, s, changes, start, k + 1)
  {
    hide AtomSize, ContextAt;
  }

  lemma InstructionChanged(atoms: seq<Atom>, s0: seq<nat>, s: seq<nat>, k: nat, size: nat)
    requires k < |atoms| == |s0| == |s| && s[k] == s0[k] && OneInstructionChanged(atoms, s0, s)
    requires atoms[k].kind.Instruction? && size != s[k] ==> s == s0
    ensures OneInstructionChanged(atoms, s0, s[k := size])
  {
  }
}
