/** `GetAllModulesFromMemMapFunc`: rebuilds the loaded-module list from the engine's
    page map. Image pages are grouped by allocation base (pass 1), each group becomes
    one record with a path, a display name and the extent of its regions (pass 2), and
    the records are sorted by base. */
module ModuleMap {
  import opened Prelude

  const MEM_IMAGE: bv32 := 0x100_0000

  const UNKNOWN_MODULE: string := "Unknown Module"

  /** One `MEMPAGE` of the map: region base, allocation base, region size, memory type
      and the engine's info text (a module path for image pages, often empty). */
  datatype MemPage = MemPage(baseAddress: U64, allocationBase: U64, regionSize: U64, kind: bv32, info: string)

  /** One collected region of a group. */
  datatype Region = Region(base: U64, size: U64, info: string)

  /** One output tuple `(Name, Path, Base, Size)`. */
  datatype ModuleInfo = ModuleInfo(name: string, path: string, base: U64, size: U64)

  predicate IsImage(p: MemPage) {
    (p.kind & MEM_IMAGE) == MEM_IMAGE
  }

  function RegionOf(p: MemPage): Region {
    Region(p.baseAddress, p.regionSize, p.info)
  }

  /** The allocation bases of all image pages. */
  function ImageBases(pages: seq<MemPage>): set<U64> {
    set p | p in pages && IsImage(p) :: p.allocationBase
  }

  // ---- pass 1: grouping ----

  /** The dictionary after pass 1 over `pages`: each image page's region appended to
      the list of its allocation base. */
  function Groups(pages: seq<MemPage>): map<U64, seq<Region>> {
    if |pages| == 0 then map[]
    else
      var g := Groups(pages[..|pages| - 1]);
      var p := pages[|pages| - 1];
      if IsImage(p) then
        g[p.allocationBase := (if p.allocationBase in g then g[p.allocationBase] else []) + [RegionOf(p)]]
      else g
  }

  /** The dictionary's enumeration order: keys in order of first insertion. */
  function KeyOrder(pages: seq<MemPage>): seq<U64> {
    if |pages| == 0 then []
    else
      var o := KeyOrder(pages[..|pages| - 1]);
      var p := pages[|pages| - 1];
      if IsImage(p) && p.allocationBase !in o then o + [p.allocationBase] else o
  }

  /** Reference definition of one group: the regions of the image pages with
      allocation base `k`, in page order. */
  function RegionsAt(pages: seq<MemPage>, k: U64): seq<Region> {
    if |pages| == 0 then []
    else
      var p := pages[|pages| - 1];
      RegionsAt(pages[..|pages| - 1], k) + (if IsImage(p) && p.allocationBase == k then [RegionOf(p)] else [])
  }

  predicate Distinct(keys: seq<U64>) {
    forall i, j :: 0 <= i < j < |keys| ==> keys[i] != keys[j]
  }

  /** Pass 1 keeps exactly the image pages: a key per allocation base of an image
      page, each holding that base's regions (never none), enumerated once each. */
  lemma {:induction false} GroupsCharacterized(pages: seq<MemPage>)
    ensures Groups(pages).Keys == ImageBases(pages)
    ensures forall k :: k in Groups(pages) ==> Groups(pages)[k] == RegionsAt(pages, k) && |Groups(pages)[k]| > 0
    ensures forall k :: k !in Groups(pages) ==> RegionsAt(pages, k) == []
    ensures forall k :: k in KeyOrder(pages) <==> k in Groups(pages)
    ensures Distinct(KeyOrder(pages))
  {
    if |pages| > 0 {
      var init := pages[..|pages| - 1];
      var p := pages[|pages| - 1];
      GroupsCharacterized(init);
      assert pages == init + [p];
      if IsImage(p) {
        GroupsImageKeys(init, p);
        GroupsImageOrder(init, p);
        GroupsImageRegions(init, p);
      } else {
        GroupsOtherPage(init, p);
      }
    }
  }

  /** An image page's allocation base becomes a key. */
  lemma GroupsImageKeys(init: seq<MemPage>, p: MemPage)
    requires IsImage(p) && Groups(init).Keys == ImageBases(init)
    ensures Groups(init + [p]).Keys == ImageBases(init + [p])
  {
    ImageBasesStep(init, p);
    assert (init + [p])[..|init|] == init;
    assert Groups(init + [p]).Keys == Groups(init).Keys + {p.allocationBase};
  }

  /** An image page with a new allocation base takes the next place in the
      enumeration. */
  lemma GroupsImageOrder(init: seq<MemPage>, p: MemPage)
    requires IsImage(p)
    requires forall k :: k in KeyOrder(init) <==> k in Groups(init)
    requires Distinct(KeyOrder(init))
    ensures forall k :: k in KeyOrder(init + [p]) <==> k in Groups(init + [p])
    ensures Distinct(KeyOrder(init + [p]))
  {
    var o := KeyOrder(init);
    assert (init + [p])[..|init|] == init;
    if p.allocationBase !in o {
      assert KeyOrder(init + [p]) == o + [p.allocationBase];
    }
  }

  /** An image page's region is appended to its allocation base's group. */
  lemma GroupsImageRegions(init: seq<MemPage>, p: MemPage)
    requires IsImage(p)
    requires forall k :: k in Groups(init) ==> Groups(init)[k] == RegionsAt(init, k) && |Groups(init)[k]| > 0
    requires forall k :: k !in Groups(init) ==> RegionsAt(init, k) == []
    ensures forall k :: k in Groups(init + [p]) ==> Groups(init + [p])[k] == RegionsAt(init + [p], k) && |Groups(init + [p])[k]| > 0
    ensures forall k :: k !in Groups(init + [p]) ==> RegionsAt(init + [p], k) == []
  {
    var pages := init + [p];
    assert pages[..|init|] == init;
    var g := Groups(init);
    var b := p.allocationBase;
    assert Groups(pages) == g[b := (if b in g then g[b] else []) + [RegionOf(p)]];
    forall k
      ensures RegionsAt(pages, k) == RegionsAt(init, k) + (if k == b then [RegionOf(p)] else [])
    {
    }
    if b !in g {
      assert [] + [RegionOf(p)] == [RegionOf(p)];
    }
  }

  /** Any other page changes nothing. */
  lemma GroupsOtherPage(init: seq<MemPage>, p: MemPage)
    requires !IsImage(p)
    ensures Groups(init + [p]) == Groups(init) && KeyOrder(init + [p]) == KeyOrder(init)
    ensures ImageBases(init + [p]) == ImageBases(init)
    ensures forall k :: RegionsAt(init + [p], k) == RegionsAt(init, k)
  {
    assert (init + [p])[..|init|] == init;
    ImageBasesStep(init, p);
    forall k
      ensures RegionsAt(init + [p], k) == RegionsAt(init, k)
    {
      assert RegionsAt(init + [p], k) == RegionsAt(init, k) + [];
    }
  }

  lemma ImageBasesStep(init: seq<MemPage>, p: MemPage)
    ensures ImageBases(init + [p]) == ImageBases(init) + (if IsImage(p) then {p.allocationBase} else {})
  {
  }

  /** A region is in the group of `k` exactly when it comes from an image page whose
      allocation base is `k`. */
  lemma {:induction false} RegionsAtMembers(pages: seq<MemPage>, k: U64, r: Region)
    ensures r in RegionsAt(pages, k) <==>
            exists i :: 0 <= i < |pages| && IsImage(pages[i]) && pages[i].allocationBase == k && RegionOf(pages[i]) == r
  {
    if |pages| > 0 {
      var init := pages[..|pages| - 1];
      RegionsAtMembers(init, k, r);
      if r in RegionsAt(init, k) {
        var i :| 0 <= i < |init| && IsImage(init[i]) && init[i].allocationBase == k && RegionOf(init[i]) == r;
        assert pages[i] == init[i];
      }
      if exists i :: 0 <= i < |pages| && IsImage(pages[i]) && pages[i].allocationBase == k && RegionOf(pages[i]) == r {
        var i :| 0 <= i < |pages| && IsImage(pages[i]) && pages[i].allocationBase == k && RegionOf(pages[i]) == r;
        if i < |pages| - 1 {
          assert init[i] == pages[i];
        }
      }
    }
  }

  // ---- pass 2: one record per group ----

  /** `FirstOrDefault(r => r.Base == allocBase)`, as the index of the region found. */
  function FirstWithBase(rs: seq<Region>, k: U64): (r: Option<nat>)
    ensures r.Some? ==> r.value < |rs| && rs[r.value].base == k && forall j :: 0 <= j < r.value ==> rs[j].base != k
    ensures r.None? ==> forall j :: 0 <= j < |rs| ==> rs[j].base != k
  {
    if |rs| == 0 then None
    else if rs[0].base == k then Some(0)
    else match FirstWithBase(rs[1..], k)
      case None => None
      case Some(j) => Some(j + 1)
  }

  /** `FirstOrDefault(r => !string.IsNullOrEmpty(r.Info))`, as an index. */
  function FirstWithInfo(rs: seq<Region>): (r: Option<nat>)
    ensures r.Some? ==> r.value < |rs| && rs[r.value].info != "" && forall j :: 0 <= j < r.value ==> rs[j].info == ""
    ensures r.None? ==> forall j :: 0 <= j < |rs| ==> rs[j].info == ""
  {
    if |rs| == 0 then None
    else if rs[0].info != "" then Some(0)
    else match FirstWithInfo(rs[1..])
      case None => None
      case Some(j) => Some(j + 1)
  }

  /** The module path: the main region's info when it is non-empty, else the first
      non-empty info of the group, else "Unknown Module". */
  function ModulePath(k: U64, rs: seq<Region>): string {
    var main := FirstWithBase(rs, k);
    if main.Some? && rs[main.value].info != "" then rs[main.value].info
    else match FirstWithInfo(rs)
      case Some(j) => rs[j].info
      case None => UNKNOWN_MODULE
  }

  /** Region `j` is the main region: the first whose base is the allocation base. */
  predicate IsMainRegion(rs: seq<Region>, k: U64, j: int) {
    0 <= j < |rs| && rs[j].base == k && forall i :: 0 <= i < j ==> rs[i].base != k
  }

  /** Region `j` holds the first non-empty info. */
  predicate IsFirstInfo(rs: seq<Region>, j: int) {
    0 <= j < |rs| && rs[j].info != "" && forall i :: 0 <= i < j ==> rs[i].info == ""
  }

  lemma {:induction false} ModulePathChoice(k: U64, rs: seq<Region>)
    ensures ModulePath(k, rs) != ""
    ensures forall j :: IsMainRegion(rs, k, j) && rs[j].info != "" ==> ModulePath(k, rs) == rs[j].info
    ensures (forall j :: IsMainRegion(rs, k, j) ==> rs[j].info == "") ==>
              forall j :: IsFirstInfo(rs, j) ==> ModulePath(k, rs) == rs[j].info
    ensures (forall j :: 0 <= j < |rs| ==> rs[j].info == "") ==> ModulePath(k, rs) == UNKNOWN_MODULE
  {
    var main := FirstWithBase(rs, k);
    forall j | IsMainRegion(rs, k, j)
      ensures main == Some(j)
    {
    }
    var first := FirstWithInfo(rs);
    forall j | IsFirstInfo(rs, j)
      ensures first == Some(j)
    {
    }
  }

  predicate IsPathSeparator(c: char) {
    c == '\\' || c == '/' || c == ':'
  }

  /** `Path.GetFileName`: the part after the last directory or volume separator. */
  function FileName(path: string): (name: string)
    ensures |name| <= |path| && name == path[|path| - |name|..]
    ensures forall i :: 0 <= i < |name| ==> !IsPathSeparator(name[i])
    ensures |name| < |path| ==> IsPathSeparator(path[|path| - |name| - 1])
  {
    if |path| == 0 || IsPathSeparator(path[|path| - 1]) then ""
    else FileName(path[..|path| - 1]) + [path[|path| - 1]]
  }

  /** The file name of a directory ending in a separator followed by a name without
      one is that name. */
  lemma {:induction false} FileNameAfterSeparator(dir: string, name: string)
    requires |dir| > 0 && IsPathSeparator(dir[|dir| - 1])
    requires forall i :: 0 <= i < |name| ==> !IsPathSeparator(name[i])
    ensures FileName(dir + name) == name
  {
    if |name| > 0 {
      var init := name[..|name| - 1];
      FileNameAfterSeparator(dir, init);
      assert (dir + name)[..|dir + name| - 1] == dir + init;
    } else {
      assert dir + name == dir;
    }
  }

  /** The end of a region, with `nuint` wrap-around. */
  function End(r: Region): U64 {
    Wrap(r.base + r.size)
  }

  /** The running minimum of the bases, as the loop keeps it. */
  function MinBase(rs: seq<Region>): U64
    requires |rs| > 0
  {
    if |rs| == 1 then rs[0].base
    else
      var m := MinBase(rs[..|rs| - 1]);
      if rs[|rs| - 1].base < m then rs[|rs| - 1].base else m
  }

  /** The running maximum of the ends, as the loop keeps it. */
  function MaxEnd(rs: seq<Region>): U64
    requires |rs| > 0
  {
    if |rs| == 1 then End(rs[0])
    else
      var m := MaxEnd(rs[..|rs| - 1]);
      if End(rs[|rs| - 1]) > m then End(rs[|rs| - 1]) else m
  }

  /** The running minimum is the least base of the group and the running maximum the
      greatest end, each reached by some region. */
  lemma {:induction false} ExtentBounds(rs: seq<Region>)
    requires |rs| > 0
    ensures forall j :: 0 <= j < |rs| ==> MinBase(rs) <= rs[j].base && End(rs[j]) <= MaxEnd(rs)
    ensures exists j :: 0 <= j < |rs| && rs[j].base == MinBase(rs)
    ensures exists j :: 0 <= j < |rs| && End(rs[j]) == MaxEnd(rs)
  {
    if |rs| > 1 {
      var init := rs[..|rs| - 1];
      ExtentBounds(init);
      assert forall j :: 0 <= j < |init| ==> init[j] == rs[j];
      var jm :| 0 <= jm < |init| && init[jm].base == MinBase(init);
      var je :| 0 <= je < |init| && End(init[je]) == MaxEnd(init);
      if rs[|rs| - 1].base >= MinBase(init) {
        assert rs[jm].base == MinBase(rs);
      }
      if End(rs[|rs| - 1]) <= MaxEnd(init) {
        assert End(rs[je]) == MaxEnd(rs);
      }
    }
  }

  /** The module size: highest region end minus lowest region base, in `nuint`
      arithmetic. */
  function ModuleSize(rs: seq<Region>): U64
    requires |rs| > 0
  {
    Wrap(MaxEnd(rs) as int - MinBase(rs) as int)
  }

  /** The display name and the path of a record: the file name of the chosen path;
      the path itself when that is empty; `Module@0x` and the base when both are. */
  function Naming(k: U64, rs: seq<Region>): (string, string) {
    var path := ModulePath(k, rs);
    var fileName := FileName(path);
    if fileName != "" then (fileName, path)
    else if path != "" then (path, path)
    else
      var fallback := "Module@0x" + HexFixed(k, 16);
      (fallback, fallback)
  }

  /** The record pass 2 builds for allocation base `k` and its regions. */
  function ModuleFor(k: U64, rs: seq<Region>): (m: ModuleInfo)
    requires |rs| > 0
    ensures m.base == k
  {
    var names := Naming(k, rs);
    ModuleInfo(names.0, names.1, k, ModuleSize(rs))
  }

  /** Since the path is never empty, the `Module@0x...` fallback is never taken: the
      record keeps the chosen path, and its name is the path's file name, or the whole
      path when that ends in a separator. */
  lemma {:induction false} FallbackUnreachable(k: U64, rs: seq<Region>)
    ensures Naming(k, rs).1 == ModulePath(k, rs)
    ensures Naming(k, rs).0 == if FileName(ModulePath(k, rs)) != "" then FileName(ModulePath(k, rs)) else ModulePath(k, rs)
    ensures Naming(k, rs).0 != ""
  {
    ModulePathChoice(k, rs);
  }

  /** When no region's end wraps past 2^64, the size is the distance from the lowest
      base to the highest end, and that span covers every region of the group. */
  lemma {:induction false} ModuleSizeSpan(rs: seq<Region>)
    requires |rs| > 0
    requires forall j :: 0 <= j < |rs| ==> rs[j].base + rs[j].size < U64_LIMIT
    ensures ModuleSize(rs) == MaxEnd(rs) - MinBase(rs)
    ensures forall j :: 0 <= j < |rs| ==>
              MinBase(rs) <= rs[j].base && rs[j].base + rs[j].size <= MinBase(rs) + ModuleSize(rs)
  {
    ExtentBounds(rs);
    forall j | 0 <= j < |rs|
      ensures End(rs[j]) == rs[j].base + rs[j].size
    {
      WrapInRange(rs[j].base + rs[j].size);
    }
    assert MinBase(rs) <= rs[0].base <= End(rs[0]) <= MaxEnd(rs);
    WrapInRange(MaxEnd(rs) - MinBase(rs));
  }

  /** The records of pass 2 for `keys`, in enumeration order, skipping empty groups. */
  function Assemble(keys: seq<U64>, g: map<U64, seq<Region>>): seq<ModuleInfo> {
    if |keys| == 0 then []
    else
      var k := keys[|keys| - 1];
      Assemble(keys[..|keys| - 1], g) + (if k in g && |g[k]| > 0 then [ModuleFor(k, g[k])] else [])
  }

  function Bases(ms: seq<ModuleInfo>): set<U64> {
    set m | m in ms :: m.base
  }

  predicate DistinctBases(ms: seq<ModuleInfo>) {
    forall i, j :: 0 <= i < j < |ms| ==> ms[i].base != ms[j].base
  }

  /** Every record of pass 2 is built from a listed key's non-empty group, and every
      listed key with a non-empty group has its record. */
  lemma {:induction false} AssembleMembers(keys: seq<U64>, g: map<U64, seq<Region>>)
    ensures forall m :: m in Assemble(keys, g) ==>
              m.base in keys && m.base in g && |g[m.base]| > 0 && m == ModuleFor(m.base, g[m.base])
    ensures forall k :: k in keys && k in g && |g[k]| > 0 ==> ModuleFor(k, g[k]) in Assemble(keys, g)
  {
    if |keys| > 0 {
      var init := keys[..|keys| - 1];
      AssembleMembers(init, g);
      assert keys == init + [keys[|keys| - 1]];
    }
  }

  /** The last key of distinct keys is not among the others, which stay distinct. */
  lemma DistinctSplit(keys: seq<U64>)
    requires Distinct(keys) && |keys| > 0
    ensures keys[|keys| - 1] !in keys[..|keys| - 1] && Distinct(keys[..|keys| - 1])
  {
    var init := keys[..|keys| - 1];
    forall x | 0 <= x < |init| ensures init[x] != keys[|keys| - 1] {
      assert init[x] == keys[x];
    }
  }

  /** Distinct keys give records with distinct bases. */
  lemma {:induction false} AssembleDistinct(keys: seq<U64>, g: map<U64, seq<Region>>)
    requires Distinct(keys)
    ensures DistinctBases(Assemble(keys, g))
  {
    if |keys| > 0 {
      var init := keys[..|keys| - 1];
      var k := keys[|keys| - 1];
      DistinctSplit(keys);
      AssembleDistinct(init, g);
      AssembleMembers(init, g);
      var a := Assemble(init, g);
      var tail := if k in g && |g[k]| > 0 then [ModuleFor(k, g[k])] else [];
      assert Assemble(keys, g) == a + tail;
      assert forall m :: m in a ==> m.base != k;
      forall i, j | 0 <= i < j < |a + tail|
        ensures (a + tail)[i].base != (a + tail)[j].base
      {
        if j >= |a| {
          assert (a + tail)[i] in a;
        }
      }
    }
  }

  // ---- sorting ----

  /** One step of sorting by `Base` with the comparator `a.Base < b.Base ? -1 : ...`. */
  function InsertByBase(m: ModuleInfo, sorted: seq<ModuleInfo>): seq<ModuleInfo> {
    if |sorted| == 0 || m.base <= sorted[0].base then [m] + sorted
    else [sorted[0]] + InsertByBase(m, sorted[1..])
  }

  /** `finalResult.Sort(...)` on records whose bases are distinct. */
  function SortByBase(ms: seq<ModuleInfo>): seq<ModuleInfo> {
    if |ms| == 0 then [] else InsertByBase(ms[0], SortByBase(ms[1..]))
  }

  predicate StrictlyAscending(ms: seq<ModuleInfo>) {
    forall i, j :: 0 <= i < j < |ms| ==> ms[i].base < ms[j].base
  }

  /** Every record of `ms` has a base above `b`. */
  predicate Above(b: U64, ms: seq<ModuleInfo>) {
    forall x :: x in ms ==> b < x.base
  }

  lemma {:induction false} InsertByBaseContents(m: ModuleInfo, s: seq<ModuleInfo>)
    ensures multiset(InsertByBase(m, s)) == multiset(s) + multiset{m}
  {
    if |s| > 0 && m.base > s[0].base {
      InsertByBaseContents(m, s[1..]);
      assert s == [s[0]] + s[1..];
    }
  }

  lemma {:induction false} ConsAscending(m: ModuleInfo, rest: seq<ModuleInfo>)
    requires StrictlyAscending(rest) && Above(m.base, rest)
    ensures StrictlyAscending([m] + rest)
  {
    forall i, j | 0 <= i < j < |[m] + rest|
      ensures ([m] + rest)[i].base < ([m] + rest)[j].base
    {
      if i == 0 {
        assert rest[j - 1] in rest;
      }
    }
  }

  lemma {:induction false} AscendingHead(s: seq<ModuleInfo>)
    requires StrictlyAscending(s) && |s| > 0
    ensures StrictlyAscending(s[1..]) && Above(s[0].base, s[1..])
  {
    forall x | x in s[1..] ensures s[0].base < x.base {
      var i :| 0 <= i < |s[1..]| && s[1..][i] == x;
      assert s[i + 1] == x;
    }
  }

  /** Inserting a record whose base is new into a strictly ascending list keeps it
      strictly ascending. */
  lemma {:induction false} InsertByBaseKeepsOrder(m: ModuleInfo, s: seq<ModuleInfo>)
    requires StrictlyAscending(s) && m.base !in Bases(s)
    ensures StrictlyAscending(InsertByBase(m, s))
  {
    if |s| > 0 {
      AscendingHead(s);
      if m.base <= s[0].base {
        assert s[0] in s;
        assert Above(m.base, s) by {
          forall x | x in s ensures m.base < x.base {
            if x != s[0] {
              assert x in s[1..] by { assert s == [s[0]] + s[1..]; }
            }
          }
        }
        ConsAscending(m, s);
      } else {
        var tail := s[1..];
        assert Bases(tail) <= Bases(s) by { assert s == [s[0]] + tail; }
        InsertByBaseKeepsOrder(m, tail);
        InsertByBaseContents(m, tail);
        var t := InsertByBase(m, tail);
        assert Above(s[0].base, t) by {
          forall x | x in t ensures s[0].base < x.base {
            assert x in multiset(t);
          }
        }
        ConsAscending(s[0], t);
      }
    }
  }

  /** Sorting records with distinct bases gives them in strictly ascending order,
      the same records, each once. */
  lemma {:induction false} SortByBaseCorrect(ms: seq<ModuleInfo>)
    requires DistinctBases(ms)
    ensures StrictlyAscending(SortByBase(ms))
    ensures multiset(SortByBase(ms)) == multiset(ms)
  {
    if |ms| > 0 {
      var tail := ms[1..];
      assert ms == [ms[0]] + tail;
      assert DistinctBases(tail);
      SortByBaseCorrect(tail);
      var st := SortByBase(tail);
      forall i | 0 <= i < |tail| ensures tail[i].base != ms[0].base {
        assert tail[i] == ms[i + 1];
      }
      FreshBaseSurvives(ms[0], tail, st);
      InsertByBaseKeepsOrder(ms[0], st);
      InsertByBaseContents(ms[0], st);
    }
  }

  /** A base that no record of a list has is not the base of any record of a
      rearrangement of it. */
  lemma FreshBaseSurvives(m: ModuleInfo, s: seq<ModuleInfo>, t: seq<ModuleInfo>)
    requires multiset(t) == multiset(s)
    requires forall i :: 0 <= i < |s| ==> s[i].base != m.base
    ensures m.base !in Bases(t)
  {
    forall x | x in t ensures x.base != m.base {
      assert x in multiset(s);
      var i :| 0 <= i < |s| && s[i] == x;
    }
  }

  // ---- the whole function ----

  /** The list `GetAllModulesFromMemMapFunc` returns for a page map. */
  function ModulesOf(pages: seq<MemPage>): seq<ModuleInfo> {
    SortByBase(Assemble(KeyOrder(pages), Groups(pages)))
  }

  /** One record per allocation base of an image page and no other, in strictly
      ascending order of base; each record is built from exactly the regions of the
      image pages with that allocation base. */
  lemma {:induction false} ModulesOfCorrect(pages: seq<MemPage>)
    ensures Bases(ModulesOf(pages)) == ImageBases(pages)
    ensures StrictlyAscending(ModulesOf(pages))
    ensures forall m :: m in ModulesOf(pages) ==>
              |RegionsAt(pages, m.base)| > 0 && m == ModuleFor(m.base, RegionsAt(pages, m.base))
  {
    var g := Groups(pages);
    var keys := KeyOrder(pages);
    GroupsCharacterized(pages);
    AssembleMembers(keys, g);
    AssembleDistinct(keys, g);
    var a := Assemble(keys, g);
    SortByBaseCorrect(a);
    var r := SortByBase(a);
    assert forall m :: m in r <==> m in a by {
      forall m ensures m in r <==> m in a {
        assert m in r <==> m in multiset(r);
        assert m in a <==> m in multiset(a);
      }
    }
    forall b | b in ImageBases(pages) ensures b in Bases(r) {
      assert ModuleFor(b, g[b]) in a;
    }
  }

  function ExamplePages(b: U64): seq<MemPage>
    requires b + 0x2000 < U64_LIMIT
  {
    [MemPage(b, b, 0x1000, MEM_IMAGE, "C:\\app\\app.exe"), MemPage(b + 0x1000, b, 0x1000, MEM_IMAGE, "")]
  }

  lemma ExampleGroups(b: U64)
    requires b + 0x2000 < U64_LIMIT
    ensures Groups(ExamplePages(b)) == map[b := ExampleRegions(b)]
    ensures KeyOrder(ExamplePages(b)) == [b]
  {
    var pages := ExamplePages(b);
    var p0 := pages[0];
    var r0 := RegionOf(p0);
    var r1 := RegionOf(pages[1]);
    assert IsImage(p0) && IsImage(pages[1]);
    assert pages[..1] == [p0] && [p0][..0] == [];
    var none: map<U64, seq<Region>> := map[];
    assert Groups([p0][..0]) == none;
    assert Groups([p0]) == map[b := [r0]] by {
      assert [] + [r0] == [r0];
    }
    assert [r0] + [r1] == [r0, r1];
    assert KeyOrder([p0]) == [b];
  }

  function ExampleRegions(b: U64): seq<Region>
    requires b + 0x2000 < U64_LIMIT
  {
    [Region(b, 0x1000, "C:\\app\\app.exe"), Region(b + 0x1000, 0x1000, "")]
  }

  lemma ExampleNaming(b: U64)
    requires b + 0x2000 < U64_LIMIT
    ensures Naming(b, ExampleRegions(b)) == ("app.exe", "C:\\app\\app.exe")
  {
    var rs := ExampleRegions(b);
    assert FirstWithBase(rs, b) == Some(0);
    assert ModulePath(b, rs) == "C:\\app\\app.exe";
    assert "C:\\app\\app.exe" == "C:\\app\\" + "app.exe";
    FileNameAfterSeparator("C:\\app\\", "app.exe");
  }

  lemma ExampleSize(b: U64)
    requires b + 0x2000 < U64_LIMIT
    ensures ModuleSize(ExampleRegions(b)) == 0x2000
  {
    var rs := ExampleRegions(b);
    assert rs[..1] == [rs[0]];
    WrapInRange(b + 0x1000);
    WrapInRange(b + 0x2000);
    assert MinBase(rs) == b;
    assert MaxEnd(rs) == b + 0x2000;
    WrapInRange(0x2000);
  }

  /** Two adjacent image pages of one allocation base make one record spanning both. */
  lemma TwoPageModule(b: U64)
    requires b + 0x2000 < U64_LIMIT
    ensures ModulesOf(ExamplePages(b)) == [ModuleInfo("app.exe", "C:\\app\\app.exe", b, 0x2000)]
  {
    var rs := ExampleRegions(b);
    ExampleGroups(b);
    ExampleNaming(b);
    ExampleSize(b);
    SingleGroupModules(b, rs);
  }

  /** One key with a non-empty group gives exactly that group's record. */
  lemma SingleGroupModules(b: U64, rs: seq<Region>)
    requires |rs| > 0
    ensures SortByBase(Assemble([b], map[b := rs])) == [ModuleFor(b, rs)]
  {
    var m := ModuleFor(b, rs);
    assert [b][..0] == [];
    assert Assemble([b], map[b := rs]) == [m];
    assert [m][1..] == [];
  }

  // ---- the method ----

  /** Pass 2's min/max loop over one group's regions. */
  method RegionExtent(regions: seq<Region>) returns (minRegionBase: U64, maxRegionEnd: U64)
    requires |regions| > 0
    ensures minRegionBase == MinBase(regions) && maxRegionEnd == MaxEnd(regions)
  {
    minRegionBase := regions[0].base;
    maxRegionEnd := End(regions[0]);
    var i := 1;
    while i < |regions|
      invariant 1 <= i <= |regions|
      invariant minRegionBase == MinBase(regions[..i])
      invariant maxRegionEnd == MaxEnd(regions[..i])
    {
      assert regions[..i + 1][..i] == regions[..i];
      assert regions[..i + 1][i] == regions[i];
      if regions[i].base < minRegionBase {
        minRegionBase := regions[i].base;
      }
      var currentEnd := End(regions[i]);
      if currentEnd > maxRegionEnd {
        maxRegionEnd := currentEnd;
      }
      i := i + 1;
    }
    assert regions[..i] == regions;
  }

  /** Pass 2 for one group: naming with its fallbacks, then the extent. */
  method BuildModule(k: U64, regions: seq<Region>) returns (m: ModuleInfo)
    requires |regions| > 0
    ensures m == ModuleFor(k, regions)
  {
    var modulePath := ModulePath(k, regions);
    var finalModuleName := FileName(modulePath);
    var fallbackName := "Module@0x" + HexFixed(k, 16);
    if finalModuleName == "" {
      finalModuleName := modulePath;
      if finalModuleName == "" {
        finalModuleName := fallbackName;
        modulePath := fallbackName;
      }
    }
    var minRegionBase, maxRegionEnd := RegionExtent(regions);
    m := ModuleInfo(finalModuleName, modulePath, k, Wrap(maxRegionEnd as int - minRegionBase as int));
  }

  /** Pass 1: each image page's region appended to the list of its allocation base,
      a new list created the first time a base is seen. */
  method GroupPages(pages: seq<MemPage>) returns (allocationRegions: map<U64, seq<Region>>, order: seq<U64>)
    ensures allocationRegions == Groups(pages) && order == KeyOrder(pages)
  {
    allocationRegions := map[];
    order := [];
    var i := 0;
    while i < |pages|
      invariant 0 <= i <= |pages|
      invariant allocationRegions == Groups(pages[..i])
      invariant order == KeyOrder(pages[..i])
    {
      GroupsCharacterized(pages[..i]);
      assert pages[..i + 1][..i] == pages[..i];
      var page := pages[i];
      if IsImage(page) {
        var allocBase := page.allocationBase;
        if allocBase !in allocationRegions {
          allocationRegions := allocationRegions[allocBase := []];
          order := order + [allocBase];
        }
        allocationRegions := allocationRegions[allocBase := allocationRegions[allocBase] + [RegionOf(page)]];
      }
      i := i + 1;
    }
    assert pages[..i] == pages;
  }

  lemma AssembleAt(keys: seq<U64>, g: map<U64, seq<Region>>, j: nat)
    requires j < |keys|
    ensures Assemble(keys[..j + 1], g) ==
            Assemble(keys[..j], g) + (if keys[j] in g && |g[keys[j]]| > 0 then [ModuleFor(keys[j], g[keys[j]])] else [])
  {
    assert keys[..j + 1][..j] == keys[..j];
  }

  /** Pass 2: one record per key with a non-empty group, in enumeration order. */
  method AssembleModules(order: seq<U64>, allocationRegions: map<U64, seq<Region>>) returns (finalResult: seq<ModuleInfo>)
    requires forall k :: k in order ==> k in allocationRegions
    ensures finalResult == Assemble(order, allocationRegions)
  {
    finalResult := [];
    var j := 0;
    while j < |order|
      invariant 0 <= j <= |order|
      invariant finalResult == Assemble(order[..j], allocationRegions)
    {
      AssembleAt(order, allocationRegions, j);
      var allocBase := order[j];
      var regions := allocationRegions[allocBase];
      if |regions| > 0 {
        var m := BuildModule(allocBase, regions);
        finalResult := finalResult + [m];
      }
      j := j + 1;
    }
    assert order[..j] == order;
  }

  /** `GetAllModulesFromMemMapFunc`. `memMap` is the page map `DbgMemMap` delivers,
      `None` when the call fails; a null page pointer or a zero count is the empty map. */
  method GetAllModulesFromMemMap(memMap: Option<seq<MemPage>>) returns (modules: seq<ModuleInfo>)
    ensures memMap.None? ==> modules == []
    ensures memMap.Some? ==> modules == ModulesOf(memMap.value)
  {
    if memMap.None? {
      return [];
    }
    var allocationRegions, order := GroupPages(memMap.value);
    GroupsCharacterized(memMap.value);
    var finalResult := AssembleModules(order, allocationRegions);
    modules := SortByBase(finalResult);
  }
}
