/** The 64-bit x86 page table entry format, and the entries it stands for. */
module Mmu {
  import opened PageTree
  import opened PageUpdate

  const PRESENT: bv64 := 1
  const WRITABLE: bv64 := 2
  const USER_MODE: bv64 := 4
  const LARGE: bv64 := 0x80
  const GLOBAL: bv64 := 0x100
  const NO_EXEC: bv64 := 0x8000_0000_0000_0000
  const PERMS_MASK: bv64 := WRITABLE | USER_MODE | NO_EXEC
  const PADDR_MASK: bv64 := 0x000F_FFFF_FFFF_FFFF
  /** The bits below the frame number that carry no flag modelled here; the cache-mode bits are among them. */
  const REST_MASK: bv64 := 0xE78

  datatype CacheMode = Cached | WriteThrough | WriteCombining | Uncached

  /** The first frame number that does not fit an entry. */
  const FRAME_LIMIT: bv64 := 0x100_0000_0000

  function FlagsFromPerms(perms: Perms): bv64 {
    (if perms.write then WRITABLE else 0) | (if perms.user then USER_MODE else 0)
    | (if !perms.execute then NO_EXEC else 0) | (if perms.global then GLOBAL else 0)
  }

  function PatSelector(mode: CacheMode): bv64 {
    match mode
    case Cached => 0
    case WriteThrough => 1
    case WriteCombining => 7
    case Uncached => 3
  }

  function PatSelectorToPteBits(sel: bv64): bv64 {
    ((sel & 1) << 3) | ((sel & 2) << 4) | ((sel & 4) << 7)
  }

  function MakeEmptyPte(): bv64 {
    0
  }

  function MakeTerminalPte(level: nat, frame: bv64, perms: Perms, mode: CacheMode): bv64 {
    (frame << 12) | PRESENT | FlagsFromPerms(perms) | (if level > 0 then LARGE else 0)
    | PatSelectorToPteBits(PatSelector(mode))
  }

  function MakeIntermediatePte(next: bv64): bv64 {
    (next << 12) | PRESENT | WRITABLE | USER_MODE
  }

  function UpdatePtePerms(pte: bv64, perms: Perms): bv64 {
    (pte & !PERMS_MASK) | FlagsFromPerms(perms)
  }

  function GetPteFrame(pte: bv64): bv64 {
    (pte & PADDR_MASK) >> 12
  }

  predicate PteIsPresent(pte: bv64) {
    pte & PRESENT != 0
  }

  predicate PteIsTerminal(pte: bv64, level: nat) {
    level == 0 || pte & LARGE != 0
  }

  /** An entry with its frame number still a machine word. */
  datatype RawEntry = RawAbsent | RawTable(next: bv64) | RawPage(frame: bv64, attrs: Attrs) {
    function Lift(): Entry {
      match this
      case RawAbsent => Absent
      case RawTable(next) => Table(next as nat)
      case RawPage(frame, attrs) => Page(frame as nat, attrs)
    }
  }

  function DecodeRaw(level: nat, pte: bv64): RawEntry {
    if !PteIsPresent(pte) then RawAbsent
    else if !PteIsTerminal(pte, level) then RawTable(GetPteFrame(pte))
    else
      RawPage(GetPteFrame(pte),
              Attrs(pte & WRITABLE != 0, pte & USER_MODE != 0, pte & NO_EXEC != 0, pte & GLOBAL != 0, pte & REST_MASK))
  }

  /** The entry that a 64-bit value stands for in a table of the given level. */
  function Decode(level: nat, pte: bv64): Entry {
    DecodeRaw(level, pte).Lift()
  }

  function AttrsOf(perms: Perms, mode: CacheMode): Attrs {
    Attrs(perms.write, perms.user, !perms.execute, perms.global, PatSelectorToPteBits(PatSelector(mode)))
  }

  lemma PermFlagBits(perms: Perms)
    ensures var f := FlagsFromPerms(perms);
            && f & !(PERMS_MASK | GLOBAL) == 0
            && (f & WRITABLE != 0 <==> perms.write) && (f & USER_MODE != 0 <==> perms.user)
            && (f & NO_EXEC != 0 <==> !perms.execute) && (f & GLOBAL != 0 <==> perms.global)
  {
  }

  lemma CacheBits(mode: CacheMode)
    ensures PatSelectorToPteBits(PatSelector(mode)) & !REST_MASK == 0
  {
  }

  lemma ComposedBits(frame: bv64, f: bv64, size: bv64, rest: bv64)
    requires frame < FRAME_LIMIT && f & !(PERMS_MASK | GLOBAL) == 0 && size & !LARGE == 0 && rest & !REST_MASK == 0
    ensures var pte := (frame << 12) | PRESENT | f | size | rest;
            && pte & PRESENT != 0 && pte & LARGE == size && GetPteFrame(pte) == frame && pte & REST_MASK == rest
            && pte & WRITABLE == f & WRITABLE && pte & USER_MODE == f & USER_MODE
            && pte & NO_EXEC == f & NO_EXEC && pte & GLOBAL == f & GLOBAL
  {
  }

  lemma UpdatedBits(pte: bv64, f: bv64)
    requires f & !(PERMS_MASK | GLOBAL) == 0
    ensures var pte' := (pte & !PERMS_MASK) | f;
            && pte' & PRESENT == pte & PRESENT && pte' & LARGE == pte & LARGE
            && GetPteFrame(pte') == GetPteFrame(pte) && pte' & REST_MASK == pte & REST_MASK
            && pte' & WRITABLE == f & WRITABLE && pte' & USER_MODE == f & USER_MODE && pte' & NO_EXEC == f & NO_EXEC
            && (pte' & GLOBAL != 0 <==> pte & GLOBAL != 0 || f & GLOBAL != 0)
  {
  }

  /** A terminal entry decodes to the page it was made for, at every level, cache mode included. */
  lemma TerminalRoundTrip(level: nat, frame: bv64, perms: Perms, mode: CacheMode)
    requires frame < FRAME_LIMIT
    ensures Decode(level, MakeTerminalPte(level, frame, perms, mode)) == Page(frame as nat, AttrsOf(perms, mode))
  {
    PermFlagBits(perms);
    CacheBits(mode);
    ComposedBits(frame, FlagsFromPerms(perms), if level > 0 then LARGE else 0, PatSelectorToPteBits(PatSelector(mode)));
  }

  lemma IntermediateRoundTrip(level: nat, next: bv64)
    requires next < FRAME_LIMIT && level > 0
    ensures Decode(level, MakeIntermediatePte(next)) == Table(next as nat)
  {
    var pte := MakeIntermediatePte(next);
    assert GetPteFrame(pte) == next;
  }

  lemma UpdateRefinesRaw(level: nat, pte: bv64, perms: Perms)
    requires PteIsTerminal(pte, level)
    ensures DecodeRaw(level, UpdatePtePerms(pte, perms))
         == var e := DecodeRaw(level, pte); if e.RawPage? then e.(attrs := Reprotect(e.attrs, perms)) else e
  {
    PermFlagBits(perms);
    UpdatedBits(pte, FlagsFromPerms(perms));
  }

  /** On every 64-bit value, an update sets the three permission bits to what is asked for, adds the global bit if that is asked
      for, and keeps every other bit. */
  lemma UpdateSetsPerms(pte: bv64, perms: Perms)
    ensures var pte' := UpdatePtePerms(pte, perms);
            && (pte' & WRITABLE != 0 <==> perms.write) && (pte' & USER_MODE != 0 <==> perms.user)
            && (pte' & NO_EXEC != 0 <==> !perms.execute)
            && (pte' & GLOBAL != 0 <==> pte & GLOBAL != 0 || perms.global)
            && pte' & !(PERMS_MASK | GLOBAL) == pte & !(PERMS_MASK | GLOBAL)
  {
    PermFlagBits(perms);
    UpdatedBits(pte, FlagsFromPerms(perms));
    OtherBits(pte, FlagsFromPerms(perms));
  }

  lemma OtherBits(pte: bv64, f: bv64)
    requires f & !(PERMS_MASK | GLOBAL) == 0
    ensures ((pte & !PERMS_MASK) | f) & !(PERMS_MASK | GLOBAL) == pte & !(PERMS_MASK | GLOBAL)
  {
  }

  lemma LiftReprotect(e: RawEntry, perms: Perms)
    ensures (if e.RawPage? then e.(attrs := Reprotect(e.attrs, perms)) else e).Lift() == ApplyToEntry(Protect(perms), e.Lift())
  {
  }

  /** On every 64-bit value, updating the permission bits is the update of the entry it stands for. */
  lemma UpdateRefines(level: nat, pte: bv64, perms: Perms)
    requires PteIsTerminal(pte, level)
    ensures Decode(level, UpdatePtePerms(pte, perms)) == ApplyToEntry(Protect(perms), Decode(level, pte))
    ensures Decode(level, MakeEmptyPte()) == ApplyToEntry(Unmap, Decode(level, pte))
  {
    UpdateRefinesRaw(level, pte, perms);
    LiftReprotect(DecodeRaw(level, pte), perms);
  }

  // ----- Permissions along a path -----

  /** What the entries on the way to a page and the page's own allow, by section 4.6 of volume 3A of the Intel manual: all of them
      must allow writing and user access, and none may forbid execution. */
  predicate AllSet(ptes: seq<bv64>, bit: bv64) {
    forall i :: 0 <= i < |ptes| ==> ptes[i] & bit != 0
  }

  predicate NoneSet(ptes: seq<bv64>, bit: bv64) {
    forall i :: 0 <= i < |ptes| ==> ptes[i] & bit == 0
  }

  ghost predicate Intermediate(pte: bv64) {
    exists next: bv64 :: next < FRAME_LIMIT && pte == MakeIntermediatePte(next)
  }

  lemma IntermediateBits(next: bv64)
    requires next < FRAME_LIMIT
    ensures var pte := MakeIntermediatePte(next);
            pte & PRESENT != 0 && pte & WRITABLE != 0 && pte & USER_MODE != 0 && pte & NO_EXEC == 0 && pte & LARGE == 0
  {
  }

  /** The entries for tables take no permission away: what a page may be used for is what its own entry says. */
  lemma {:induction false} PathAllows(path: seq<bv64>, pte: bv64)
    requires forall i :: 0 <= i < |path| ==> Intermediate(path[i])
    ensures AllSet(path + [pte], PRESENT) <==> pte & PRESENT != 0
    ensures AllSet(path + [pte], WRITABLE) <==> pte & WRITABLE != 0
    ensures AllSet(path + [pte], USER_MODE) <==> pte & USER_MODE != 0
    ensures NoneSet(path + [pte], NO_EXEC) <==> pte & NO_EXEC == 0
  {
    forall i | 0 <= i < |path|
      ensures path[i] & PRESENT != 0 && path[i] & WRITABLE != 0 && path[i] & USER_MODE != 0 && path[i] & NO_EXEC == 0
    {
      var next: bv64 :| next < FRAME_LIMIT && path[i] == MakeIntermediatePte(next);
      IntermediateBits(next);
    }
    var all := path + [pte];
    assert all[|path|] == pte;
    forall i | 0 <= i < |path|
      ensures all[i] == path[i]
    {
    }
  }

  /** A page that was mapped with some permissions can be used for exactly what they say, and so can one that got them later. */
  lemma {:induction false} EffectivePerms(path: seq<bv64>, level: nat, frame: bv64, perms: Perms, mode: CacheMode, perms': Perms)
    requires (forall i :: 0 <= i < |path| ==> Intermediate(path[i])) && frame < FRAME_LIMIT
    ensures var ptes := path + [MakeTerminalPte(level, frame, perms, mode)];
            && (AllSet(ptes, WRITABLE) <==> perms.write) && (AllSet(ptes, USER_MODE) <==> perms.user)
            && (NoneSet(ptes, NO_EXEC) <==> perms.execute)
    ensures var ptes := path + [UpdatePtePerms(MakeTerminalPte(level, frame, perms, mode), perms')];
            && (AllSet(ptes, WRITABLE) <==> perms'.write) && (AllSet(ptes, USER_MODE) <==> perms'.user)
            && (NoneSet(ptes, NO_EXEC) <==> perms'.execute)
  {
    var pte := MakeTerminalPte(level, frame, perms, mode);
    PermFlagBits(perms);
    CacheBits(mode);
    ComposedBits(frame, FlagsFromPerms(perms), if level > 0 then LARGE else 0, PatSelectorToPteBits(PatSelector(mode)));
    UpdateSetsPerms(pte, perms');
    PathAllows(path, pte);
    PathAllows(path, UpdatePtePerms(pte, perms'));
  }

  // ----- Memory types -----

  /** The bits of an entry that select one of the eight memory types, by section 4.9.2 of volume 3A of the Intel manual.  The
      third one is elsewhere in the entries of large pages. */
  const PWT: bv64 := 0x8
  const PCD: bv64 := 0x10
  const PAT_SMALL: bv64 := 0x80
  const PAT_LARGE: bv64 := 0x1000

  /** The memory type index that the processor reads from a terminal entry. */
  function PatIndex(level: nat, pte: bv64): bv64 {
    (if pte & PWT != 0 then 1 else 0) | (if pte & PCD != 0 then 2 else 0)
    | (if pte & (if level > 0 then PAT_LARGE else PAT_SMALL) != 0 then 4 else 0)
  }

  /** An entry selects the memory type of its cache mode exactly if that is the first or second one.  Entries for write-combining
      and uncached pages select write-through: the second bit of the selector ends up in the accessed bit, and the third in one
      that the processor ignores. */
  lemma MemoryTypes(level: nat, frame: bv64, perms: Perms, mode: CacheMode)
    requires frame < FRAME_LIMIT && (level > 0 ==> frame & 1 == 0)
    ensures var index := PatIndex(level, MakeTerminalPte(level, frame, perms, mode));
            && (index == PatSelector(mode) <==> mode.Cached? || mode.WriteThrough?)
            && (mode.WriteCombining? || mode.Uncached? ==> index == PatSelector(WriteThrough))
  {
    TypeIndex(level, frame, perms, mode);
    match mode {
      case Cached =>
      case WriteThrough =>
      case WriteCombining =>
      case Uncached =>
    }
  }

  lemma TypeIndex(level: nat, frame: bv64, perms: Perms, mode: CacheMode)
    requires frame < FRAME_LIMIT && (level > 0 ==> frame & 1 == 0)
    ensures PatIndex(level, MakeTerminalPte(level, frame, perms, mode)) == if mode.Cached? then 0 else 1
  {
    PermFlagBits(perms);
    SelectorBits(mode);
    var pte := MakeTerminalPte(level, frame, perms, mode);
    TypeBits(frame, FlagsFromPerms(perms), if level > 0 then LARGE else 0, PatSelectorToPteBits(PatSelector(mode)));
    assert pte & PCD == 0 && pte & (if level > 0 then PAT_LARGE else PAT_SMALL) == 0;
    IndexBits(level, pte, !mode.Cached?);
  }

  lemma IndexBits(level: nat, pte: bv64, pwt: bool)
    requires pte & PCD == 0 && pte & (if level > 0 then PAT_LARGE else PAT_SMALL) == 0 && (pte & PWT != 0 <==> pwt)
    ensures PatIndex(level, pte) == if pwt then 1 else 0
  {
  }

  lemma TypeBits(frame: bv64, f: bv64, size: bv64, rest: bv64)
    requires frame < FRAME_LIMIT && f & !(PERMS_MASK | GLOBAL) == 0 && size & !LARGE == 0 && rest & !REST_MASK == 0
    ensures var pte := (frame << 12) | PRESENT | f | size | rest;
            && pte & PWT == rest & PWT && pte & PCD == rest & PCD && pte & PAT_SMALL == size & PAT_SMALL
            && (frame & 1 == 0 ==> pte & PAT_LARGE == 0)
  {
  }

  lemma SelectorBits(mode: CacheMode)
    ensures var bits := PatSelectorToPteBits(PatSelector(mode));
            bits & !REST_MASK == 0 && (bits & PWT != 0 <==> !mode.Cached?) && bits & PCD == 0
  {
  }
}
