/** Looking up a symbol of a loaded library by name: the GNU hash table, the System V hash table (chapter 5
    of the System V gABI, Dynamic Linking, Hash Table) and the linear scan of the symbol table.

    Tables are what can be read: `symtab` and the two `chains` go on to the end of the mapping, so the bounds
    checks of the source are comparisons with their lengths, and where a table ends is part of what makes it
    well formed.  The hash functions are arbitrary. */
module SymbolLookup {
  import opened Common

  const STB_GLOBAL := 1
  const STB_WEAK := 2
  const SHN_UNDEF := 0

  // `name` is an offset into the string table.
  datatype Symbol = Symbol(name: nat, bind: nat, shndx: nat, value: nat)

  datatype GnuTable = GnuTable(symndx: nat, buckets: seq<nat>, chains: seq<nat>)

  datatype ElfTable = ElfTable(nchain: nat, buckets: seq<nat>, chains: seq<nat>)

  datatype Library = Library(base: nat, symtab: seq<Symbol>, strtab: string,
                             gnu: Option<GnuTable>, elf: Option<ElfTable>)

  type Hash = string -> nat

  // A C string has no terminator inside.
  predicate IsName(s: string) { forall i :: 0 <= i < |s| ==> s[i] != '\0' }

  // The string at offset `off` is `name`, with its terminator inside the table.
  predicate NameAt(strtab: string, off: nat, name: string) {
    && off + |name| < |strtab| && strtab[off + |name|] == '\0'
    && forall k :: 0 <= k < |name| ==> strtab[off + k] == name[k]
  }

  predicate Named(lib: Library, i: nat, name: string) {
    i < |lib.symtab| && NameAt(lib.strtab, lib.symtab[i].name, name)
  }

  ghost predicate HasName(lib: Library, i: nat) {
    exists name: string :: Named(lib, i, name)
  }

  predicate Defined(lib: Library, i: nat) {
    i < |lib.symtab| && lib.symtab[i].shndx != SHN_UNDEF
  }

  predicate Exported(lib: Library, i: nat) {
    Defined(lib, i) && lib.symtab[i].bind in {STB_GLOBAL, STB_WEAK}
  }

  // ----- what a lookup should return -----

  // Symbol i, of the n in the table, exports `name`.
  predicate Exports(lib: Library, n: nat, i: nat, name: string) {
    0 < i < n && Exported(lib, i) && Named(lib, i, name)
  }

  ghost predicate Answers(lib: Library, n: nat, name: string, r: Option<nat>) {
    match r
    case None => forall i: nat :: !Exports(lib, n, i, name)
    case Some(a) => exists i: nat :: Exports(lib, n, i, name) && a == lib.base + lib.symtab[i].value
  }

  ghost predicate UniqueExport(lib: Library, n: nat, name: string) {
    forall i: nat, j: nat :: Exports(lib, n, i, name) && Exports(lib, n, j, name) ==> i == j
  }

  // When a name is exported at most once there is one right answer.
  lemma OneAnswer(lib: Library, n: nat, name: string, r: Option<nat>, r': Option<nat>)
    requires UniqueExport(lib, n, name) && Answers(lib, n, name, r) && Answers(lib, n, name, r')
    ensures r == r'
  {
  }

  // ----- what the indexes return -----

  // The indexes do not look at a symbol's binding: they find any defined symbol, from number lo on.
  predicate Defines(lib: Library, lo: nat, n: nat, i: nat, name: string) {
    lo <= i < n && Defined(lib, i) && Named(lib, i, name)
  }

  ghost predicate FindsDefined(lib: Library, lo: nat, n: nat, name: string, r: Option<nat>) {
    match r
    case None => forall i: nat :: !Defines(lib, lo, n, i, name)
    case Some(a) => exists i: nat :: Defines(lib, lo, n, i, name) && a == lib.base + lib.symtab[i].value
  }

  // Symbols of that name are in the index if and only if they are exported.
  ghost predicate IndexesExports(lib: Library, lo: nat, n: nat, name: string) {
    forall i: nat :: Defines(lib, 1, n, i, name) ==> (Exported(lib, i) <==> lo <= i)
  }

  // An index returns what is exported, for every name that it indexes as it should.
  lemma IndexAnswers(lib: Library, lo: nat, n: nat, name: string, r: Option<nat>)
    requires lo > 0 && FindsDefined(lib, lo, n, name, r) && IndexesExports(lib, lo, n, name)
    ensures Answers(lib, n, name, r)
  {
    if r.None? {
      forall i: nat ensures !Exports(lib, n, i, name) {
        assert Exports(lib, n, i, name) ==> Defines(lib, 1, n, i, name) && Defines(lib, lo, n, i, name);
      }
    } else {
      var i: nat :| Defines(lib, lo, n, i, name) && r.value == lib.base + lib.symtab[i].value;
      assert Defines(lib, 1, n, i, name) && Exports(lib, n, i, name);
    }
  }

  ghost predicate DefinedOnce(lib: Library, n: nat, name: string) {
    forall i: nat, j: nat :: Defines(lib, 1, n, i, name) && Defines(lib, 1, n, j, name) ==> i == j
  }

  // For names defined at most once, an index returns what is exported for exactly the names that it indexes as it
  // should.
  lemma AnswersExactly(lib: Library, lo: nat, n: nat, name: string, r: Option<nat>)
    requires lo > 0 && FindsDefined(lib, lo, n, name, r) && DefinedOnce(lib, n, name)
    ensures Answers(lib, n, name, r) <==> IndexesExports(lib, lo, n, name)
  {
    if IndexesExports(lib, lo, n, name) {
      IndexAnswers(lib, lo, n, name, r);
    } else {
      var i: nat :| Defines(lib, 1, n, i, name) && !(Exported(lib, i) <==> lo <= i);
      assert Exported(lib, i) ==> Exports(lib, n, i, name);
      assert lo <= i ==> Defines(lib, lo, n, i, name);
      assert forall j: nat :: Defines(lib, lo, n, j, name) || Exports(lib, n, j, name) ==> Defines(lib, 1, n, j, name);
    }
  }

  // So it agrees with the symbol table for exactly those names.
  lemma AgreesExactly(lib: Library, lo: nat, n: nat, name: string, r: Option<nat>, r': Option<nat>)
    requires lo > 0 && FindsDefined(lib, lo, n, name, r) && Answers(lib, n, name, r') && DefinedOnce(lib, n, name)
    ensures r == r' <==> IndexesExports(lib, lo, n, name)
  {
    AnswersExactly(lib, lo, n, name, r);
    if Answers(lib, n, name, r) {
      forall i: nat, j: nat | Exports(lib, n, i, name) && Exports(lib, n, j, name) ensures i == j {
        assert Defines(lib, 1, n, i, name) && Defines(lib, 1, n, j, name);
      }
      OneAnswer(lib, n, name, r, r');
    }
  }

  // ----- comparing names -----

  // str_equal_bounded, from offset `off`.
  method StrEqualBounded(strtab: string, off: nat, name: string) returns (eq: bool)
    requires off <= |strtab| && IsName(name)
    ensures eq <==> NameAt(strtab, off, name)
  {
    var k := 0;
    while off + k < |strtab| && strtab[off + k] != '\0' && At(name, k) != '\0'
      invariant k <= |name| && off + k <= |strtab| && forall j :: 0 <= j < k ==> strtab[off + j] == name[j]
    {
      if strtab[off + k] != At(name, k) {
        return false;
      }
      k := k + 1;
    }
    return off + k < |strtab| && strtab[off + k] == '\0' && At(name, k) == '\0';
  }

  // A character of a terminated string.
  function At(s: string, k: nat): char { if k < |s| then s[k] else '\0' }

  method NameMatches(lib: Library, i: nat, name: string) returns (eq: bool)
    requires i < |lib.symtab| && IsName(name)
    ensures eq <==> Named(lib, i, name)
  {
    if lib.symtab[i].name >= |lib.strtab| { return false; }
    eq := StrEqualBounded(lib.strtab, lib.symtab[i].name, name);
  }

  // ----- the GNU table -----

  // Bit 0 of a chain value ends the chain; the other bits are those of the hash.
  function WithLowBit(x: nat): nat { x / 2 * 2 + 1 }

  predicate Ends(g: GnuTable, i: nat) {
    g.symndx <= i && i - g.symndx < |g.chains| && g.chains[i - g.symndx] % 2 == 1
  }

  // The table of a library with n symbols, of which those from symndx on are hashed.
  ghost predicate GnuOk(lib: Library, g: GnuTable, n: nat, hash: Hash) {
    && |g.buckets| > 0 && 0 < g.symndx <= n <= |lib.symtab| && n - g.symndx <= |g.chains|
    && (forall b :: 0 <= b < |g.buckets| ==> g.buckets[b] == 0 || g.symndx <= g.buckets[b] < n)
    && (g.symndx < n ==> Ends(g, n - 1))
    && (forall i: nat :: g.symndx <= i < n ==> HasName(lib, i))
    && (forall i: nat, name: string {:trigger Named(lib, i, name)} ::
          g.symndx <= i < n && Named(lib, i, name) ==> GnuLists(g, i, hash(name)))
  }

  // Symbol i of that hash is on the chain of its bucket: from the bucket's start, nothing ends before i.
  ghost predicate GnuLists(g: GnuTable, i: nat, h: nat) {
    && g.symndx <= i && i - g.symndx < |g.chains| && g.chains[i - g.symndx] / 2 == h / 2
    && |g.buckets| > 0 && 0 < g.buckets[h % |g.buckets|] <= i
    && forall k: nat :: g.buckets[h % |g.buckets|] <= k < i ==> !Ends(g, k)
  }

  // Nothing of that name comes after the end of its chain.
  lemma NothingPastEnd(lib: Library, g: GnuTable, n: nat, hash: Hash, name: string, e: nat)
    requires GnuOk(lib, g, n, hash) && Ends(g, e) && g.buckets[hash(name) % |g.buckets|] <= e
    ensures forall i: nat :: Defines(lib, g.symndx, n, i, name) ==> i <= e
  {
    forall i: nat | Defines(lib, g.symndx, n, i, name) ensures i <= e {
      assert GnuLists(g, i, hash(name));
    }
  }

  method FindWithGnuHash(lib: Library, g: GnuTable, ghost n: nat, hash: Hash, name: string) returns (r: Option<nat>)
    requires IsName(name) && GnuOk(lib, g, n, hash)
    ensures FindsDefined(lib, g.symndx, n, name, r)
  {
    if |g.buckets| == 0 { return None; }
    var h := hash(name);
    var symIdx := g.buckets[h % |g.buckets|];
    if symIdx == 0 { return None; }
    if symIdx < g.symndx { return None; }
    var chainIdx := symIdx - g.symndx;
    var hash1 := WithLowBit(h);
    while true
      invariant g.symndx + chainIdx < n
      invariant forall i: nat :: i < g.symndx + chainIdx ==> !Defines(lib, g.symndx, n, i, name)
      decreases n - chainIdx
    {
      if chainIdx >= |g.chains| { break; }
      var chainVal := g.chains[chainIdx];
      if WithLowBit(chainVal) == hash1 && g.symndx + chainIdx < |lib.symtab| {
        var eq := NameMatches(lib, g.symndx + chainIdx, name);
        if eq && lib.symtab[g.symndx + chainIdx].shndx != SHN_UNDEF {
          return Some(lib.base + lib.symtab[g.symndx + chainIdx].value);
        }
      }
      if chainVal % 2 == 1 {
        NothingPastEnd(lib, g, n, hash, name, g.symndx + chainIdx);
        break;
      }
      chainIdx := chainIdx + 1;
    }
    return None;
  }

  // ----- the System V table -----

  // Following the links of `chains` from idx visits the indices of `path` and stops at 0.
  ghost predicate IsChain(chains: seq<nat>, idx: nat, path: seq<nat>)
    decreases |path|
  {
    if path == [] then idx == 0
    else idx == path[0] != 0 && idx < |chains| && IsChain(chains, chains[idx], path[1..])
  }

  // The table of a library with n symbols; each is on the chain of its bucket.
  ghost predicate ElfOk(lib: Library, e: ElfTable, n: nat, hash: Hash, paths: seq<seq<nat>>) {
    && |e.buckets| > 0 && e.nchain == n <= |lib.symtab| && n <= |e.chains| && |paths| == |e.buckets|
    && (forall b :: 0 <= b < |paths| ==>
          IsChain(e.chains, e.buckets[b], paths[b]) && forall k :: 0 <= k < |paths[b]| ==> paths[b][k] < n)
    && (forall i: nat, name: string {:trigger Named(lib, i, name)} ::
          0 < i < n && Named(lib, i, name) ==> i in paths[hash(name) % |paths|])
  }

  method FindWithElfHash(lib: Library, e: ElfTable, ghost n: nat, hash: Hash, ghost paths: seq<seq<nat>>, name: string)
    returns (r: Option<nat>)
    requires IsName(name) && ElfOk(lib, e, n, hash, paths)
    ensures FindsDefined(lib, 1, n, name, r)
  {
    if |e.buckets| == 0 { return None; }
    var h := hash(name);
    var idx: nat := e.buckets[h % |e.buckets|];
    ghost var path: seq<nat> := paths[h % |paths|];
    while idx != 0 && idx < e.nchain
      invariant IsChain(e.chains, idx, path) && forall k :: 0 <= k < |path| ==> path[k] < n
      invariant forall i: nat :: Defines(lib, 1, n, i, name) ==> i in path
      decreases |path|
    {
      if idx >= |lib.symtab| { break; }
      var eq := NameMatches(lib, idx, name);
      if eq && lib.symtab[idx].shndx != SHN_UNDEF {
        return Some(lib.base + lib.symtab[idx].value);
      }
      if idx >= |e.chains| { break; }
      idx := e.chains[idx];
      path := path[1..];
    }
    return None;
  }

  // The index finds a local symbol that the linear scan passes over.
  lemma LocalSymbolFound(hash: Hash)
    ensures var lib := Library(0, [NULL_SYMBOL, Symbol(1, 0, 1, 8)], "\0f\0", None, Some(ElfTable(2, [1], [0, 0])));
      && ElfOk(lib, lib.elf.value, 2, hash, [[1]])
      && FindsDefined(lib, 1, 2, "f", Some(8)) && Answers(lib, 2, "f", None)
  {
    var lib := Library(0, [NULL_SYMBOL, Symbol(1, 0, 1, 8)], "\0f\0", None, Some(ElfTable(2, [1], [0, 0])));
    var path: seq<nat> := [1];
    assert path[1..] == [] && IsChain(lib.elf.value.chains, 0, path[1..]);
    assert Defines(lib, 1, 2, 1, "f");
    assert forall i: nat :: 0 < i < 2 ==> i in path;
    assert forall k: nat :: k % 1 == 0;
    assert forall i: nat :: !Exports(lib, 2, i, "f");
  }

  // ----- counting symbols, and the linear scan -----

  // Nothing starts after symbol `start`, and the chain from there first ends at symbol count - 1.
  ghost predicate CountsFrom(g: GnuTable, start: nat, count: nat) {
    && g.symndx <= start < count && (start == g.symndx || start in g.buckets)
    && (forall b :: 0 <= b < |g.buckets| ==> g.buckets[b] <= start)
    && (forall i: nat :: start <= i < count - 1 ==> !Ends(g, i))
    && (count - 1 - g.symndx < |g.chains| ==> Ends(g, count - 1))
    && (start < count - 1 ==> count - 1 - g.symndx <= |g.chains|)
  }

  // The part of get_symbol_count that has only a GNU table to go by.
  method CountFromGnu(g: GnuTable) returns (count: nat, ghost start: nat)
    requires |g.buckets| > 0
    ensures CountsFrom(g, start, count)
  {
    var maxSym := g.symndx;
    for i := 0 to |g.buckets|
      invariant g.symndx <= maxSym && (maxSym == g.symndx || maxSym in g.buckets)
      invariant forall b :: 0 <= b < i ==> g.buckets[b] <= maxSym
    {
      if g.buckets[i] > maxSym {
        maxSym := g.buckets[i];
      }
    }
    start := maxSym;
    var chainIdx := maxSym - g.symndx;
    while chainIdx < |g.chains| && g.chains[chainIdx] % 2 == 0
      invariant start <= g.symndx + chainIdx && forall i: nat :: start <= i < g.symndx + chainIdx ==> !Ends(g, i)
      invariant start < g.symndx + chainIdx ==> chainIdx <= |g.chains|
    {
      chainIdx := chainIdx + 1;
    }
    return g.symndx + chainIdx + 1, start;
  }

  predicate Hashes(g: GnuTable) { exists b :: 0 <= b < |g.buckets| && g.buckets[b] != 0 }

  // The table hashes at least one symbol exactly when some bucket is not empty.
  lemma HashesExact(lib: Library, g: GnuTable, n: nat, hash: Hash)
    requires GnuOk(lib, g, n, hash)
    ensures Hashes(g) <==> g.symndx < n
  {
    if g.symndx < n {
      assert HasName(lib, n - 1);
      var name: string :| Named(lib, n - 1, name);
      assert GnuLists(g, n - 1, hash(name));
    }
  }

  // The count is right exactly when some bucket of the table is not empty.
  lemma GnuCountExact(lib: Library, g: GnuTable, n: nat, hash: Hash, start: nat, count: nat)
    requires GnuOk(lib, g, n, hash) && CountsFrom(g, start, count)
    ensures count == n <==> Hashes(g)
  {
    HashesExact(lib, g, n, hash);
    if g.symndx < n {
      assert start < n;
      assert HasName(lib, n - 1);
      var name: string :| Named(lib, n - 1, name);
      assert GnuLists(g, n - 1, hash(name));
    }
  }

  const NULL_SYMBOL := Symbol(0, 0, SHN_UNDEF, 0)

  // A library whose only symbol is the null symbol, and whose GNU table is well formed and empty, counts two.
  lemma GnuCountFails(hash: Hash, start: nat, count: nat)
    requires CountsFrom(GnuTable(1, [0], []), start, count)
    ensures GnuOk(Library(0, [NULL_SYMBOL], "\0", Some(GnuTable(1, [0], [])), None), GnuTable(1, [0], []), 1, hash)
    ensures count == 2
  {
    var g := GnuTable(1, [0], []);
    assert forall b :: 0 <= b < |g.buckets| ==> g.buckets[b] == 0;
  }

  // The library has n symbols, and its tables say so.
  ghost predicate Counted(lib: Library, n: nat, hash: Hash) {
    && n <= |lib.symtab|
    && (lib.elf.Some? ==> lib.elf.value.nchain == n)
    && (lib.elf.None? ==> lib.gnu.Some? && GnuOk(lib, lib.gnu.value, n, hash) && Hashes(lib.gnu.value))
  }

  method GetSymbolCount(lib: Library, ghost n: nat, ghost hash: Hash) returns (count: nat)
    ensures Counted(lib, n, hash) ==> count == n
    ensures lib.elf.None? && lib.gnu.None? ==> count == 0
  {
    if lib.elf.Some? {
      return lib.elf.value.nchain;
    }
    if lib.gnu.Some? {
      if |lib.gnu.value.buckets| == 0 { return 0; }
      ghost var start;
      count, start := CountFromGnu(lib.gnu.value);
      if Counted(lib, n, hash) {
        GnuCountExact(lib, lib.gnu.value, n, hash, start, count);
      }
      return count;
    }
    return 0;
  }

  method FindWithLinearScan(lib: Library, ghost n: nat, ghost hash: Hash, name: string) returns (r: Option<nat>)
    requires IsName(name)
    ensures Counted(lib, n, hash) ==> Answers(lib, n, name, r)
    ensures lib.elf.None? && lib.gnu.None? ==> r == None
  {
    var count := GetSymbolCount(lib, n, hash);
    var i := 1;
    while i < count
      invariant forall j: nat :: j < i ==> !Exports(lib, count, j, name)
    {
      if i >= |lib.symtab| { return None; }
      var sym := lib.symtab[i];
      if (sym.bind == STB_GLOBAL || sym.bind == STB_WEAK) && sym.shndx != SHN_UNDEF {
        var eq := NameMatches(lib, i, name);
        if eq { return Some(lib.base + sym.value); }
      }
      i := i + 1;
    }
    return None;
  }

  predicate Indexed(lib: Library) { lib.gnu.Some? || lib.elf.Some? }

  // The first symbol in the index that the lookup uses.
  function IndexStart(lib: Library): nat {
    if lib.gnu.Some? then lib.gnu.value.symndx else 1
  }

  // lc_library_find_symbol.  The linear scan is reached only without tables, and then has nothing to count by.
  method FindSymbol(lib: Library, ghost n: nat, hashGnu: Hash, hashElf: Hash, ghost paths: seq<seq<nat>>, name: string)
    returns (r: Option<nat>)
    requires IsName(name)
    requires lib.gnu.Some? ==> GnuOk(lib, lib.gnu.value, n, hashGnu)
    requires lib.elf.Some? ==> ElfOk(lib, lib.elf.value, n, hashElf, paths)
    // with an index the answer is right for names that it indexes exactly when exported, and for a name defined at
    // most once only then
    ensures Indexed(lib) && IndexesExports(lib, IndexStart(lib), n, name) ==> Answers(lib, n, name, r)
    ensures Indexed(lib) && DefinedOnce(lib, n, name) ==>
      (Answers(lib, n, name, r) <==> IndexesExports(lib, IndexStart(lib), n, name))
    // without one it is right exactly if nothing of that name is exported
    ensures !Indexed(lib) ==> r == None && (Answers(lib, n, name, r) <==> forall i: nat :: !Exports(lib, n, i, name))
  {
    if lib.gnu.Some? {
      r := FindWithGnuHash(lib, lib.gnu.value, n, hashGnu, name);
    } else if lib.elf.Some? {
      r := FindWithElfHash(lib, lib.elf.value, n, hashElf, paths, name);
    } else {
      r := FindWithLinearScan(lib, n, hashGnu, name);
    }
    if Indexed(lib) {
      if IndexesExports(lib, IndexStart(lib), n, name) { IndexAnswers(lib, IndexStart(lib), n, name, r); }
      if DefinedOnce(lib, n, name) { AnswersExactly(lib, IndexStart(lib), n, name, r); }
    }
  }

  // A library without tables that exports a function: the symbol is there, and finding nothing is wrong.
  lemma FallbackFindsNothing()
    ensures var lib := Library(0, [NULL_SYMBOL, Symbol(1, STB_GLOBAL, 1, 8)], "\0f\0", None, None);
      !Indexed(lib) && Exports(lib, 2, 1, "f") && !Answers(lib, 2, "f", None) && Answers(lib, 2, "f", Some(8))
  {
    var lib := Library(0, [NULL_SYMBOL, Symbol(1, STB_GLOBAL, 1, 8)], "\0f\0", None, None);
    assert Exports(lib, 2, 1, "f");
  }
}
