/** Changing one word of the system data sector through the backup sector, on NOR flash: erasing
    sets every bit of a sector, and writing can only clear bits. */
module SystemData {

  /** Words in a sector of 0x1000 bytes. */
  const SECTOR := 1024

  const ERASED: bv32 := 0xffff_ffff

  lemma WriteToErased(v: bv32)
    ensures ERASED & v == v
  {}

  /** The flash and its driver, by word. The ghost fields record every state the cells have been
      in, and whether every write so far went to an erased cell. */
  class Flash {
    var words: seq<bv32>
    ghost var history: seq<seq<bv32>>
    ghost var clean: bool

    constructor (size: nat)
      ensures |words| == size && (forall i :: 0 <= i < size ==> words[i] == ERASED) && history == [] && clean
    {
      words := seq(size, _ => ERASED);
      history, clean := [], true;
    }

    method ReadWord(i: nat) returns (v: bv32)
      requires i < |words|
      ensures v == words[i]
    {
      v := words[i];
    }

    method WriteWord(i: nat, v: bv32)
      requires i < |words|
      modifies this
      ensures words == old(words)[i := old(words)[i] & v]
      ensures history == old(history) + [words]
      ensures clean == (old(clean) && old(words)[i] == ERASED)
    {
      clean := clean && words[i] == ERASED;
      words := words[i := words[i] & v];
      history := history + [words];
    }

    method EraseSector(s: nat)
      requires s + SECTOR <= |words|
      modifies this
      ensures words == Erase(old(words), s)
      ensures history == old(history) + [words] && clean == old(clean)
    {
      words := Erase(words, s);
      history := history + [words];
    }
  }

  function Erase(words: seq<bv32>, s: nat): (w: seq<bv32>)
    requires s + SECTOR <= |words|
    ensures |w| == |words|
    ensures forall i :: 0 <= i < |w| ==> w[i] == if s <= i < s + SECTOR then ERASED else words[i]
  {
    seq(|words|, i requires 0 <= i < |words| => if s <= i < s + SECTOR then ERASED else words[i])
  }

  function Sector(words: seq<bv32>, s: nat): (data: seq<bv32>)
    requires s + SECTOR <= |words|
    ensures |data| == SECTOR
  {
    words[s..s + SECTOR]
  }

  /** The two sectors lie in the flash and do not overlap. */
  predicate Layout(n: nat, system: nat, backup: nat) {
    system + SECTOR <= n && backup + SECTOR <= n && (system + SECTOR <= backup || backup + SECTOR <= system)
  }

  /** Power may fail here: one of the sectors holds the whole old or the whole new data. */
  predicate Recoverable(words: seq<bv32>, system: nat, backup: nat, before: seq<bv32>, after: seq<bv32>) {
    Layout(|words|, system, backup) &&
    (Sector(words, system) == before || Sector(words, system) == after || Sector(words, backup) == after)
  }

  predicate AllRecoverable(h: seq<seq<bv32>>, system: nat, backup: nat, before: seq<bv32>, after: seq<bv32>) {
    forall k :: 0 <= k < |h| ==> Recoverable(h[k], system, backup, before, after)
  }

  /** In every state the sector `s` holds `data`. */
  predicate AllHold(h: seq<seq<bv32>>, s: nat, data: seq<bv32>, n: nat) {
    forall k :: 0 <= k < |h| ==> |h[k]| == n && s + SECTOR <= n && Sector(h[k], s) == data
  }

  datatype Patch = None | At(slot: nat, value: bv32)

  /** A sector's data, with one word replaced or none. */
  function Patched(data: seq<bv32>, patch: Patch): (r: seq<bv32>)
    requires patch.At? ==> patch.slot < |data|
    ensures |r| == |data|
  {
    if patch.At? then data[patch.slot := patch.value] else data
  }

  lemma PatchedAt(data: seq<bv32>, patch: Patch, i: nat)
    requires (patch.At? ==> patch.slot < |data|) && i < |data|
    ensures Patched(data, patch)[i] == if patch.At? && i == patch.slot then patch.value else data[i]
  {}

  /** The flash with the first `k` words of sector `dst` taken from `data`. */
  function Filled(words: seq<bv32>, dst: nat, data: seq<bv32>, k: nat): (w: seq<bv32>)
    requires dst + SECTOR <= |words| && |data| == SECTOR && k <= SECTOR
    ensures |w| == |words|
    ensures forall i :: 0 <= i < |w| ==> w[i] == if dst <= i < dst + k then data[i - dst] else words[i]
  {
    seq(|words|, i requires 0 <= i < |words| => if dst <= i < dst + k then data[i - dst] else words[i])
  }

  lemma FilledStep(words: seq<bv32>, dst: nat, data: seq<bv32>, k: nat)
    requires dst + SECTOR <= |words| && |data| == SECTOR && k < SECTOR
    ensures Filled(words, dst, data, k)[dst + k := data[k]] == Filled(words, dst, data, k + 1)
    ensures Filled(words, dst, data, 0) == words
  {}

  lemma OtherSector(words: seq<bv32>, dst: nat, data: seq<bv32>, k: nat, s: nat)
    requires Layout(|words|, s, dst) && |data| == SECTOR && k <= SECTOR
    ensures Sector(Filled(words, dst, data, k), s) == Sector(words, s)
    ensures Sector(Filled(words, dst, data, SECTOR), dst) == data
  {}

  lemma CellsDuring(words: seq<bv32>, src: nat, dst: nat, data: seq<bv32>, k: nat)
    requires Layout(|words|, src, dst) && |data| == SECTOR && k < SECTOR
    ensures Filled(words, dst, data, k)[src + k] == Sector(words, src)[k]
    ensures Filled(words, dst, data, k)[dst + k] == words[dst + k]
  {}

  predicate Blank(words: seq<bv32>, s: nat) {
    s + SECTOR <= |words| && forall i :: s <= i < s + SECTOR ==> words[i] == ERASED
  }

  /** Turn `i` of the copy reads the word that is due, and finds its cell erased. */
  lemma TurnFacts(words: seq<bv32>, src: nat, dst: nat, patch: Patch, i: nat)
    requires Layout(|words|, src, dst) && (patch.At? ==> patch.slot < SECTOR) && Blank(words, dst) && i < SECTOR
    ensures var data := Patched(Sector(words, src), patch);
      var w := Filled(words, dst, data, i);
      && src + i < |w| && dst + i < |w| && w[dst + i] == ERASED
      && data[i] == (if patch.At? && i == patch.slot then patch.value else w[src + i])
      && w[dst + i := data[i]] == Filled(words, dst, data, i + 1)
  {
    hide Filled, Sector, Patched;
    var data := Patched(Sector(words, src), patch);
    CellsDuring(words, src, dst, data, i);
    PatchedAt(Sector(words, src), patch, i);
    FilledStep(words, dst, data, i);
  }

  lemma EmptyHold(s: nat, data: seq<bv32>, n: nat)
    ensures AllHold([], s, data, n)
  {}

  lemma HoldMore(states: seq<seq<bv32>>, words: seq<bv32>, src: nat, dst: nat, data: seq<bv32>, k: nat)
    requires Layout(|words|, src, dst) && |data| == SECTOR && k <= SECTOR
    requires AllHold(states, src, Sector(words, src), |words|)
    ensures AllHold(states + [Filled(words, dst, data, k)], src, Sector(words, src), |words|)
  {
    hide Filled, Sector;
    OtherSector(words, dst, data, k, src);
  }

  /** One turn of a copy loop. */
  method CopyWord(flash: Flash, src: nat, dst: nat, patch: Patch, i: nat, ghost was: seq<bv32>)
    requires Layout(|was|, src, dst) && (patch.At? ==> patch.slot < SECTOR) && Blank(was, dst) && i < SECTOR
    requires flash.words == Filled(was, dst, Patched(Sector(was, src), patch), i)
    modifies flash
    ensures flash.words == Filled(was, dst, Patched(Sector(was, src), patch), i + 1)
    ensures flash.clean == old(flash.clean) && flash.history == old(flash.history) + [flash.words]
  {
    hide Filled, Sector, Patched, Blank, Layout;
    TurnFacts(was, src, dst, patch, i);
    var v := flash.ReadWord(src + i);
    if patch.At? && i == patch.slot {
      v := patch.value;
    }
    WriteToErased(v);
    flash.WriteWord(dst + i, v);
  }

  /** One of the two copy loops: a whole sector into an erased one, with one word changed on the
      way or none. */
  method CopySector(flash: Flash, src: nat, dst: nat, patch: Patch) returns (ghost states: seq<seq<bv32>>)
    requires Layout(|flash.words|, src, dst) && (patch.At? ==> patch.slot < SECTOR) && Blank(flash.words, dst)
    modifies flash
    ensures flash.words == Filled(old(flash.words), dst, Patched(Sector(old(flash.words), src), patch), SECTOR)
    ensures flash.clean == old(flash.clean)
    ensures flash.history == old(flash.history) + states
    ensures AllHold(states, src, Sector(old(flash.words), src), |old(flash.words)|)
  {
    ghost var was := flash.words;
    ghost var data := Patched(Sector(was, src), patch);
    var i := 0;
    FilledStep(was, dst, data, 0);
    states := [];
    EmptyHold(src, Sector(was, src), |was|);
    hide Filled, Sector, AllHold, Patched, Blank, Layout;
    while i < SECTOR
      invariant i <= SECTOR && flash.words == Filled(was, dst, data, i)
      invariant flash.clean == old(flash.clean) && flash.history == old(flash.history) + states
      invariant AllHold(states, src, Sector(was, src), |was|)
    {
      CopyWord(flash, src, dst, patch, i, was);
      HoldMore(states, was, src, dst, data, i + 1);
      states := states + [flash.words];
      i := i + 1;
    }
  }

  /** The flash after the word has been changed: the backup sector is left erased if it was used. */
  function WordSet(words: seq<bv32>, system: nat, backup: nat, slot: nat, addr: bv32): seq<bv32>
    requires Layout(|words|, system, backup) && slot < SECTOR
  {
    var w := words[system + slot := addr];
    if words[system + slot] == ERASED then w else Erase(w, backup)
  }

  /** One word changes, and of all others only those of a used backup. */
  lemma WordSetAt(words: seq<bv32>, system: nat, backup: nat, slot: nat, addr: bv32)
    requires Layout(|words|, system, backup) && slot < SECTOR
    ensures var w := WordSet(words, system, backup, slot, addr);
      |w| == |words| && forall i :: 0 <= i < |w| ==>
        w[i] == if i == system + slot then addr
          else if words[system + slot] != ERASED && backup <= i < backup + SECTOR then ERASED
          else words[i]
  {}

  lemma WordSetErased(words: seq<bv32>, system: nat, backup: nat, slot: nat, addr: bv32)
    requires Layout(|words|, system, backup) && slot < SECTOR && words[system + slot] == ERASED
    ensures WordSet(words, system, backup, slot, addr) == words[system + slot := addr]
  {}

  lemma Rewritten(words: seq<bv32>, system: nat, backup: nat, slot: nat, addr: bv32)
    requires Layout(|words|, system, backup) && slot < SECTOR && words[system + slot] != ERASED
    ensures var data := Sector(words, system)[slot := addr];
      var w := Erase(Filled(Erase(words, backup), backup, data, SECTOR), system);
      Erase(Filled(w, system, data, SECTOR), backup) == WordSet(words, system, backup, slot, addr)
  {}

  lemma ErasedElsewhere(words: seq<bv32>, system: nat, backup: nat)
    requires Layout(|words|, system, backup)
    ensures Sector(Erase(words, backup), system) == Sector(words, system)
    ensures Blank(Erase(words, backup), backup)
  {}

  /** write_ota_addr_to_system_data (slot 0) and write_otu_to_system_data (slot 3). */
  method SetSystemWord(flash: Flash, system: nat, backup: nat, slot: nat, addr: bv32)
    returns (ghost states: seq<seq<bv32>>)
    requires Layout(|flash.words|, system, backup) && slot < SECTOR
    modifies flash
    ensures flash.words == WordSet(old(flash.words), system, backup, slot, addr)
    ensures |flash.words| == |old(flash.words)| && forall i :: 0 <= i < |flash.words| ==>
      flash.words[i] == if i == system + slot then addr
        else if old(flash.words)[system + slot] != ERASED && backup <= i < backup + SECTOR then ERASED
        else old(flash.words)[i]
    ensures flash.clean == old(flash.clean)
    ensures flash.history == old(flash.history) + states
    ensures var before := Sector(old(flash.words), system);
      AllRecoverable(states, system, backup, before, before[slot := addr])
  {
    WordSetAt(flash.words, system, backup, slot, addr);
    hide WordSet;
    ghost var was := flash.words;
    var data := flash.ReadWord(system + slot);
    if data == ERASED {
      WriteToErased(addr);
      flash.WriteWord(system + slot, addr);
      states := [flash.words];
      assert Sector(flash.words, system) == Sector(was, system)[slot := addr];
      WordSetErased(was, system, backup, slot, addr);
    } else {
      states := Rewrite(flash, system, backup, slot, addr);
    }
  }

  lemma HoldIsRecoverable(states: seq<seq<bv32>>, n: nat, system: nat, backup: nat, before: seq<bv32>, after: seq<bv32>)
    requires Layout(n, system, backup)
    requires AllHold(states, system, before, n) || AllHold(states, backup, after, n)
    ensures AllRecoverable(states, system, backup, before, after)
  {}

  /** The rewrite: erase the backup, copy with the change, erase the system sector, copy back,
      erase the backup. */
  method Rewrite(flash: Flash, system: nat, backup: nat, slot: nat, addr: bv32) returns (ghost states: seq<seq<bv32>>)
    requires Layout(|flash.words|, system, backup) && slot < SECTOR && flash.words[system + slot] != ERASED
    modifies flash
    ensures flash.words == WordSet(old(flash.words), system, backup, slot, addr)
    ensures flash.clean == old(flash.clean)
    ensures flash.history == old(flash.history) + states
    ensures var before := Sector(old(flash.words), system);
      AllRecoverable(states, system, backup, before, before[slot := addr])
  {
    hide Filled, WordSet, Sector;
    ghost var was, n := flash.words, |flash.words|;
    ghost var before := Sector(was, system);
    ghost var after := before[slot := addr];
    Rewritten(was, system, backup, slot, addr);
    flash.EraseSector(backup);
    ErasedElsewhere(was, system, backup);
    ghost var w := flash.words;
    var copying := CopySector(flash, system, backup, At(slot, addr));
    HoldIsRecoverable(copying, n, system, backup, before, after);
    states := [w] + copying;
    OtherSector(w, backup, after, SECTOR, system);
    w := flash.words;
    flash.EraseSector(system);
    ErasedElsewhere(w, backup, system);
    w := flash.words;
    copying := CopySector(flash, backup, system, None);
    HoldIsRecoverable(copying, n, system, backup, before, after);
    states := states + [w] + copying;
    OtherSector(w, system, after, SECTOR, backup);
    w := flash.words;
    flash.EraseSector(backup);
    ErasedElsewhere(w, system, backup);
    states := states + [flash.words];
  }
}
