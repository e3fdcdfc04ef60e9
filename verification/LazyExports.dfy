/** Lazy re-export façades: the routing tables generated for them, and the runtime that
    serves names from those tables.
 */
module LazyExports {
  import opened Common

  /** A Python object, up to identity. */
  type Obj = int

  datatype Entry = Entry(key: string, value: Obj)

  /** An insertion-ordered dictionary. */
  type Dict = seq<Entry>

  function Keys(d: Dict): (r: seq<string>)
    ensures |r| == |d| && forall i | 0 <= i < |d| :: r[i] == d[i].key
  {
    if d == [] then [] else [d[0].key] + Keys(d[1..])
  }

  ghost predicate Distinct(keys: seq<string>) {
    forall i, j | 0 <= i < j < |keys| :: keys[i] != keys[j]
  }

  /** The value at a key; the first entry decides, and in a dictionary it is the only one. */
  function Get(d: Dict, key: string): (r: Option<Obj>)
    ensures r.Some? <==> key in Keys(d)
  {
    if d == [] then None
    else if d[0].key == key then Some(d[0].value)
    else
      assert Keys(d)[1..] == Keys(d[1..]);
      Get(d[1..], key)
  }

  /** `d[key] = value`: a bound key keeps its position, a new one goes last. */
  function Put(d: Dict, e: Entry): Dict {
    if d == [] then [e]
    else if d[0].key == e.key then [e] + d[1..]
    else [d[0]] + Put(d[1..], e)
  }

  /** Binds a list of names one after another; also `d.update(other)`. */
  function PutAll(d: Dict, binds: seq<Entry>): Dict {
    if binds == [] then d
    else Put(PutAll(d, binds[..|binds| - 1]), binds[|binds| - 1])
  }

  // --- Dictionaries are decided by their key order and their values ----------------

  function AddKey(keys: seq<string>, key: string): seq<string> {
    if key in keys then keys else keys + [key]
  }

  /** The keys of `more` appended at their first occurrence. */
  function AddKeys(keys: seq<string>, more: seq<string>): seq<string> {
    if more == [] then keys else AddKey(AddKeys(keys, more[..|more| - 1]), more[|more| - 1])
  }

  /** The value of the last bind of `key`. */
  function LastBind(binds: seq<Entry>, key: string): Option<Obj> {
    if binds == [] then None
    else if binds[|binds| - 1].key == key then Some(binds[|binds| - 1].value)
    else LastBind(binds[..|binds| - 1], key)
  }

  lemma {:induction false} PutMeaning(d: Dict, e: Entry, key: string)
    ensures Keys(Put(d, e)) == AddKey(Keys(d), e.key)
    ensures Get(Put(d, e), key) == if key == e.key then Some(e.value) else Get(d, key)
  {
    if d != [] {
      assert Keys(d) == [d[0].key] + Keys(d[1..]);
      if d[0].key == e.key {
        assert ([e] + d[1..])[1..] == d[1..];
        assert Keys([e] + d[1..]) == [e.key] + Keys(d[1..]);
      } else {
        PutMeaning(d[1..], e, key);
        var r := [d[0]] + Put(d[1..], e);
        assert r[1..] == Put(d[1..], e);
        assert Keys(r) == [d[0].key] + Keys(Put(d[1..], e));
        assert e.key in Keys(d) <==> e.key in Keys(d[1..]);
      }
    } else {
      assert Keys([e]) == [e.key] && Keys(d) == [];
    }
  }

  lemma {:induction false} PutAllMeaning(d: Dict, binds: seq<Entry>, key: string)
    ensures Keys(PutAll(d, binds)) == AddKeys(Keys(d), Keys(binds))
    ensures Get(PutAll(d, binds), key) ==
      if LastBind(binds, key).Some? then LastBind(binds, key) else Get(d, key)
  {
    if binds != [] {
      var n := |binds| - 1;
      PutAllMeaning(d, binds[..n], key);
      PutMeaning(PutAll(d, binds[..n]), binds[n], key);
      assert Keys(binds)[..n] == Keys(binds[..n]) && Keys(binds)[n] == binds[n].key;
    } else {
      assert Keys(binds) == [];
    }
  }

  lemma AddKeyDistinct(keys: seq<string>, key: string)
    requires Distinct(keys)
    ensures Distinct(AddKey(keys, key))
  {
  }

  lemma {:induction false} AddKeysDistinct(keys: seq<string>, more: seq<string>)
    requires Distinct(keys)
    ensures Distinct(AddKeys(keys, more))
  {
    if more != [] {
      AddKeysDistinct(keys, more[..|more| - 1]);
      AddKeyDistinct(AddKeys(keys, more[..|more| - 1]), more[|more| - 1]);
    }
  }

  lemma {:induction false} GetAt(d: Dict, i: nat)
    requires Distinct(Keys(d)) && i < |d|
    ensures Get(d, d[i].key) == Some(d[i].value)
  {
    if i > 0 {
      assert Keys(d)[0] != Keys(d)[i];
      assert Keys(d[1..]) == Keys(d)[1..];
      GetAt(d[1..], i - 1);
    }
  }

  /** Two dictionaries with the same keys in the same order and the same values are one. */
  lemma DictEqual(a: Dict, b: Dict)
    requires Distinct(Keys(a)) && Keys(a) == Keys(b) && forall key :: Get(a, key) == Get(b, key)
    ensures a == b
  {
    forall i | 0 <= i < |a| ensures a[i] == b[i] {
      assert Keys(a)[i] == Keys(b)[i];
      GetAt(a, i);
      GetAt(b, i);
    }
  }

  lemma {:induction false} AddKeysMember(keys: seq<string>, more: seq<string>, key: string)
    ensures key in AddKeys(keys, more) <==> key in keys || key in more
  {
    if more != [] {
      var n := |more| - 1;
      AddKeysMember(keys, more[..n], key);
      assert more == more[..n] + [more[n]];
    }
  }

  lemma {:induction false} AddKeysTwice(keys: seq<string>, more: seq<string>)
    ensures AddKeys(keys, AddKeys([], more)) == AddKeys(keys, more)
  {
    if more != [] {
      var n := |more| - 1;
      AddKeysTwice(keys, more[..n]);
      var first := AddKeys([], more[..n]);
      AddKeysMember([], more[..n], more[n]);
      AddKeysMember(keys, more[..n], more[n]);
      if more[n] !in first {
        assert (first + [more[n]])[..|first|] == first;
      }
    }
  }

  lemma {:induction false} LastBindIsGet(d: Dict, key: string)
    requires Distinct(Keys(d))
    ensures LastBind(d, key) == Get(d, key)
  {
    if d != [] {
      var n := |d| - 1;
      assert Keys(d[..n]) == Keys(d)[..n];
      LastBindIsGet(d[..n], key);
      if d[n].key == key {
        GetAt(d, n);
      } else {
        GetPrefix(d, n, key);
      }
    }
  }

  lemma {:induction false} GetPrefix(d: Dict, n: nat, key: string)
    requires n < |d| && |d| == n + 1 && d[n].key != key
    ensures Get(d, key) == Get(d[..n], key)
  {
    if n > 0 && d[0].key != key {
      GetPrefix(d[1..], n - 1, key);
      assert d[1..][..n - 1] == d[..n][1..];
    }
  }

  /** Star-importing a façade already computed is inlining its binds: the same names in
      the same order with the same objects, whatever was bound before. */
  lemma StarIsInline(d: Dict, binds: seq<Entry>)
    requires Distinct(Keys(d))
    ensures PutAll(d, PutAll([], binds)) == PutAll(d, binds)
  {
    var star := PutAll([], binds);
    assert Keys([]) == [];
    PutAllMeaning([], binds, "");
    AddKeysDistinct([], Keys(binds));
    PutAllMeaning(d, star, "");
    PutAllMeaning(d, binds, "");
    AddKeysTwice(Keys(d), Keys(binds));
    AddKeysDistinct(Keys(d), Keys(binds));
    forall key ensures Get(PutAll(d, star), key) == Get(PutAll(d, binds), key) {
      PutAllMeaning(d, star, key);
      PutAllMeaning(d, binds, key);
      PutAllMeaning([], binds, key);
      LastBindIsGet(star, key);
    }
    DictEqual(PutAll(d, star), PutAll(d, binds));
  }

  lemma {:induction false} PutAllConcat(d: Dict, a: seq<Entry>, b: seq<Entry>)
    ensures PutAll(d, a + b) == PutAll(PutAll(d, a), b)
  {
    if b == [] {
      assert a + b == a;
    } else {
      var n := |b| - 1;
      assert (a + b)[..|a + b| - 1] == a + b[..n];
      PutAllConcat(d, a, b[..n]);
    }
  }

  lemma PutAllDistinct(d: Dict, binds: seq<Entry>)
    requires Distinct(Keys(d))
    ensures Distinct(Keys(PutAll(d, binds)))
  {
    PutAllMeaning(d, binds, "");
    AddKeysDistinct(Keys(d), Keys(binds));
  }

  // --- Modules and façade declarations ---------------------------------------------

  /** An imported module: what it exports, and its attributes. */
  datatype Module = Module(exported: seq<string>, attrs: Dict)

  datatype Alias = Alias(name: string, bound: string)

  /** A statement of a façade's type-checking block. */
  datatype Import = Star(source: string) | Named(source: string, aliases: seq<Alias>) | NotAnImport

  datatype World = World(modules: map<string, Module>, definedIn: map<Obj, string>)

  function Attr(w: World, source: string, name: string): Result<Obj> {
    if source !in w.modules then Err("No module named")
    else
      var found := Get(w.modules[source].attrs, name);
      if found.None? then Err("module has no attribute") else Ok(found.value)
  }

  /** The binds of `from source import name as bound, ...`. */
  function NamedBinds(w: World, source: string, aliases: seq<Alias>): Result<seq<Entry>> {
    if aliases == [] then Ok([])
    else
      var n := |aliases| - 1;
      var before := NamedBinds(w, source, aliases[..n]);
      if before.Err? then before
      else
        var obj := Attr(w, source, aliases[n].name);
        if obj.Err? then Err(obj.reason) else Ok(before.value + [Entry(aliases[n].bound, obj.value)])
  }

  function Unaliased(names: seq<string>): (r: seq<Alias>)
    ensures |r| == |names| && forall i | 0 <= i < |r| :: r[i] == Alias(names[i], names[i])
  {
    if names == [] then [] else [Alias(names[0], names[0])] + Unaliased(names[1..])
  }

  /** The binds of one statement, given the façades already computed. */
  function BindsOf(w: World, computed: map<string, Dict>, stmt: Import): Result<seq<Entry>> {
    match stmt
    case NotAnImport => Ok([])
    case Named(source, aliases) =>
      if source !in w.modules then Err("No module named") else NamedBinds(w, source, aliases)
    case Star(source) =>
      if source in computed then Ok(computed[source])
      else if source !in w.modules then Err("No module named")
      else NamedBinds(w, source, Unaliased(w.modules[source].exported))
  }

  function SurfaceOf(w: World, computed: map<string, Dict>, block: seq<Import>): Result<Dict> {
    if block == [] then Ok([])
    else
      var n := |block| - 1;
      var before := SurfaceOf(w, computed, block[..n]);
      if before.Err? then before
      else
        var binds := BindsOf(w, computed, block[n]);
        if binds.Err? then Err(binds.reason) else Ok(PutAll(before.value, binds.value))
  }

  /** `declared_surface`: the names a façade declares, resolved and in order. */
  method DeclaredSurface(w: World, computed: map<string, Dict>, block: seq<Import>) returns (r: Result<Dict>)
    ensures r == SurfaceOf(w, computed, block)
  {
    var surface: Dict := [];
    for i := 0 to |block|
      invariant SurfaceOf(w, computed, block[..i]) == Ok(surface)
    {
      assert block[..i + 1][..i] == block[..i];
      var binds := BindsOf(w, computed, block[i]);
      if binds.Err? {
        SurfaceError(w, computed, block, i + 1);
        return Err(binds.reason);
      }
      var before := surface;
      for k := 0 to |binds.value|
        invariant surface == PutAll(before, binds.value[..k])
      {
        assert binds.value[..k + 1][..k] == binds.value[..k];
        surface := Put(surface, binds.value[k]);
      }
      assert binds.value[..|binds.value|] == binds.value;
    }
    assert block[..|block|] == block;
    r := Ok(surface);
  }

  lemma {:induction false} SurfaceError(w: World, computed: map<string, Dict>, block: seq<Import>, n: nat)
    requires n <= |block| && SurfaceOf(w, computed, block[..n]).Err?
    ensures SurfaceOf(w, computed, block) == SurfaceOf(w, computed, block[..n])
    decreases |block|
  {
    if n < |block| {
      var m := |block| - 1;
      assert block[..m][..n] == block[..n];
      SurfaceError(w, computed, block[..m], n);
    } else {
      assert block[..n] == block;
    }
  }

  // --- What an import statement binds ------------------------------------------------

  /** The first entry under `name` is at `k`. */
  ghost predicate FirstAt(attrs: Dict, name: string, k: nat) {
    k < |attrs| && attrs[k].key == name && forall j | 0 <= j < k :: attrs[j].key != name
  }

  /** A namespace holds `v` under `name`. */
  ghost predicate Reads(attrs: Dict, name: string, v: Obj) {
    exists k | 0 <= k < |attrs| :: FirstAt(attrs, name, k) && attrs[k].value == v
  }

  /** `e` binds an alias to the attribute it names. */
  ghost predicate BindsAlias(attrs: Dict, alias: Alias, e: Entry) {
    e.key == alias.bound && Reads(attrs, alias.name, e.value)
  }

  ghost predicate BindsEach(attrs: Dict, aliases: seq<Alias>, binds: seq<Entry>) {
    |binds| == |aliases| && forall i | 0 <= i < |binds| :: BindsAlias(attrs, aliases[i], binds[i])
  }

  ghost predicate BindsExported(m: Module, binds: seq<Entry>) {
    && |binds| == |m.exported|
    && forall i | 0 <= i < |binds| :: BindsAlias(m.attrs, Alias(m.exported[i], m.exported[i]), binds[i])
  }

  /** What a statement of the block binds, in order: a named import each alias to the
      attribute it names, a star import of a façade that façade's surface, any other star
      import every exported name to its attribute, and any other statement nothing. */
  ghost predicate Executes(w: World, computed: map<string, Dict>, stmt: Import, binds: seq<Entry>) {
    match stmt
    case NotAnImport => binds == []
    case Named(source, aliases) => source in w.modules && BindsEach(w.modules[source].attrs, aliases, binds)
    case Star(source) =>
      if source in computed then binds == computed[source]
      else source in w.modules && BindsExported(w.modules[source], binds)
  }

  lemma FirstInTail(d: Dict, rest: Dict, name: string, k: nat)
    requires d != [] && rest == d[1..] && d[0].key != name && k < |rest|
    ensures FirstAt(rest, name, k) <==> FirstAt(d, name, k + 1)
  {
    assert forall j | 0 <= j < k :: rest[j] == d[j + 1];
    assert forall j | 0 < j < k + 1 :: d[j] == rest[j - 1];
  }

  lemma {:induction false} GetReads(d: Dict, name: string, v: Obj)
    ensures Get(d, name) == Some(v) <==> Reads(d, name, v)
  {
    if d != [] {
      var rest := d[1..];
      if d[0].key == name {
        assert FirstAt(d, name, 0);
      } else {
        GetReads(rest, name, v);
        if Reads(d, name, v) {
          var k :| 0 <= k < |d| && FirstAt(d, name, k) && d[k].value == v;
          FirstInTail(d, rest, name, k - 1);
        }
        if Reads(rest, name, v) {
          var k :| 0 <= k < |rest| && FirstAt(rest, name, k) && rest[k].value == v;
          FirstInTail(d, rest, name, k);
        }
      }
    }
  }

  lemma AttrBinds(w: World, source: string, alias: Alias, e: Entry)
    requires source in w.modules
    ensures BindsAlias(w.modules[source].attrs, alias, e) <==>
      e.key == alias.bound && Attr(w, source, alias.name) == Ok(e.value)
  {
    GetReads(w.modules[source].attrs, alias.name, e.value);
  }

  lemma EachGrows(attrs: Dict, aliases: seq<Alias>, n: nat, binds: seq<Entry>)
    requires |aliases| == |binds| == n + 1
    ensures BindsEach(attrs, aliases, binds) <==>
      BindsEach(attrs, aliases[..n], binds[..n]) && BindsAlias(attrs, aliases[n], binds[n])
  {
    var front, all := aliases[..n], binds[..n];
    assert forall i | 0 <= i < n :: front[i] == aliases[i] && all[i] == binds[i];
    if BindsEach(attrs, front, all) {
      forall i | 0 <= i < n ensures BindsAlias(attrs, aliases[i], binds[i]) {
        assert BindsAlias(attrs, front[i], all[i]);
      }
    }
  }

  lemma {:induction false} NamedMeans(w: World, source: string, aliases: seq<Alias>, binds: seq<Entry>)
    requires source in w.modules
    ensures NamedBinds(w, source, aliases) == Ok(binds) <==> BindsEach(w.modules[source].attrs, aliases, binds)
    decreases |aliases|
  {
    if aliases != [] {
      var n := |aliases| - 1;
      NamedSize(w, source, aliases);
      if |binds| == n + 1 {
        NamedMeans(w, source, aliases[..n], binds[..n]);
        AttrBinds(w, source, aliases[n], binds[n]);
        EachGrows(w.modules[source].attrs, aliases, n, binds);
        assert binds == binds[..n] + [binds[n]];
        NamedSize(w, source, aliases[..n]);
      }
    }
  }

  lemma {:induction false} NamedSize(w: World, source: string, aliases: seq<Alias>)
    ensures NamedBinds(w, source, aliases).Ok? ==> |NamedBinds(w, source, aliases).value| == |aliases|
    decreases |aliases|
  {
    if aliases != [] {
      NamedSize(w, source, aliases[..|aliases| - 1]);
    }
  }

  lemma ExportedAreUnaliased(m: Module, binds: seq<Entry>)
    ensures BindsEach(m.attrs, Unaliased(m.exported), binds) <==> BindsExported(m, binds)
  {
  }

  /** A statement is resolved exactly to what it binds. */
  lemma StatementMeans(w: World, computed: map<string, Dict>, stmt: Import, binds: seq<Entry>)
    ensures BindsOf(w, computed, stmt) == Ok(binds) <==> Executes(w, computed, stmt, binds)
  {
    if stmt.Named? && stmt.source in w.modules {
      NamedMeans(w, stmt.source, stmt.aliases, binds);
    } else if stmt.Star? && stmt.source !in computed && stmt.source in w.modules {
      NamedMeans(w, stmt.source, Unaliased(w.modules[stmt.source].exported), binds);
      ExportedAreUnaliased(w.modules[stmt.source], binds);
    }
  }

  // --- The eager façade ------------------------------------------------------------

  datatype Facade = Facade(package: string, block: seq<Import>)

  /** Every bind the eager façade would execute, in order: a star import of a lower façade
      runs that façade's own binds in its place. */
  function EagerBinds(w: World, lower: seq<Facade>, block: seq<Import>): Result<seq<Entry>>
    decreases |lower|, |block|
  {
    if block == [] then Ok([])
    else
      var n := |block| - 1;
      var before := EagerBinds(w, lower, block[..n]);
      if before.Err? then before
      else
        var binds := EagerStatement(w, lower, block[n]);
        if binds.Err? then Err(binds.reason) else Ok(before.value + binds.value)
  }

  function EagerStatement(w: World, lower: seq<Facade>, stmt: Import): Result<seq<Entry>>
    decreases |lower|, 0
  {
    if lower == [] then BindsOf(w, map[], stmt)
    else
      var n := |lower| - 1;
      if stmt.Star? && stmt.source == lower[n].package then EagerBinds(w, lower[..n], lower[n].block)
      else EagerStatement(w, lower[..n], stmt)
  }

  /** The surfaces `collect` has computed after the façades in `done`, bottom-up. */
  function ComputedAfter(w: World, done: seq<Facade>): Result<map<string, Dict>> {
    if done == [] then Ok(map[])
    else
      var n := |done| - 1;
      var before := ComputedAfter(w, done[..n]);
      if before.Err? then before
      else
        var surface := SurfaceOf(w, before.value, done[n].block);
        if surface.Err? then Err(surface.reason) else Ok(before.value[done[n].package := surface.value])
  }

  /** Each computed surface is the eager façade's final namespace. */
  ghost predicate Faithful(w: World, lower: seq<Facade>, computed: map<string, Dict>) {
    forall stmt: Import ::
      && (BindsOf(w, computed, stmt).Ok? <==> EagerStatement(w, lower, stmt).Ok?)
      && (BindsOf(w, computed, stmt).Ok? ==> forall d: Dict | Distinct(Keys(d)) ::
            PutAll(d, BindsOf(w, computed, stmt).value) == PutAll(d, EagerStatement(w, lower, stmt).value))
  }

  lemma {:induction false} SurfaceIsEager(w: World, lower: seq<Facade>, computed: map<string, Dict>, block: seq<Import>)
    requires Faithful(w, lower, computed)
    ensures SurfaceOf(w, computed, block).Ok? <==> EagerBinds(w, lower, block).Ok?
    ensures SurfaceOf(w, computed, block).Ok? ==>
      SurfaceOf(w, computed, block).value == PutAll([], EagerBinds(w, lower, block).value)
  {
    if block != [] {
      var n := |block| - 1;
      SurfaceIsEager(w, lower, computed, block[..n]);
      var before := SurfaceOf(w, computed, block[..n]);
      if before.Ok? {
        var eager := EagerBinds(w, lower, block[..n]).value;
        assert Keys([]) == [];
        PutAllDistinct([], eager);
        var stmt := block[n];
        if EagerStatement(w, lower, stmt).Ok? {
          PutAllConcat([], eager, EagerStatement(w, lower, stmt).value);
          assert PutAll(before.value, BindsOf(w, computed, stmt).value) ==
                 PutAll(before.value, EagerStatement(w, lower, stmt).value);
        }
      }
    }
  }

  lemma {:induction false} ComputedFaithful(w: World, done: seq<Facade>)
    requires ComputedAfter(w, done).Ok?
    ensures Faithful(w, done, ComputedAfter(w, done).value)
  {
    var computed := ComputedAfter(w, done).value;
    if done != [] {
      var n := |done| - 1;
      var before := ComputedAfter(w, done[..n]).value;
      ComputedFaithful(w, done[..n]);
      SurfaceIsEager(w, done[..n], before, done[n].block);
      var binds := EagerBinds(w, done[..n], done[n].block).value;
      forall stmt: Import
        ensures BindsOf(w, computed, stmt).Ok? <==> EagerStatement(w, done, stmt).Ok?
        ensures BindsOf(w, computed, stmt).Ok? ==> forall d: Dict | Distinct(Keys(d)) ::
          PutAll(d, BindsOf(w, computed, stmt).value) == PutAll(d, EagerStatement(w, done, stmt).value)
      {
        if stmt.Star? && stmt.source == done[n].package {
          assert BindsOf(w, computed, stmt) == Ok(PutAll([], binds));
          assert EagerStatement(w, done, stmt) == Ok(binds);
          forall d: Dict | Distinct(Keys(d))
            ensures PutAll(d, PutAll([], binds)) == PutAll(d, binds)
          {
            StarIsInline(d, binds);
          }
        } else {
          assert BindsOf(w, computed, stmt) == BindsOf(w, before, stmt);
          assert EagerStatement(w, done, stmt) == EagerStatement(w, done[..n], stmt);
        }
      }
    }
  }

  /** The generated surface is the eager façade. However the façades star-import one
      another, each computed surface has the eager façade's names, in the order they were
      first bound, and each name's object is the one bound last. */
  lemma GeneratedIsEager(w: World, lower: seq<Facade>, block: seq<Import>, surface: Dict, name: string)
    requires ComputedAfter(w, lower).Ok?
    requires SurfaceOf(w, ComputedAfter(w, lower).value, block) == Ok(surface)
    ensures EagerBinds(w, lower, block).Ok?
    ensures Keys(surface) == AddKeys([], Keys(EagerBinds(w, lower, block).value)) && Distinct(Keys(surface))
    ensures Get(surface, name) == LastBind(EagerBinds(w, lower, block).value, name)
  {
    ComputedFaithful(w, lower);
    SurfaceIsEager(w, lower, ComputedAfter(w, lower).value, block);
    assert Keys([]) == [];
    PutAllMeaning([], EagerBinds(w, lower, block).value, name);
    AddKeysDistinct([], Keys(EagerBinds(w, lower, block).value));
  }

  // --- Routing ---------------------------------------------------------------------

  function IndexOf(s: string, c: char): (k: nat)
    ensures k <= |s| && (k < |s| ==> s[k] == c) && forall j | 0 <= j < k :: s[j] != c
  {
    if s == [] || s[0] == c then 0 else 1 + IndexOf(s[1..], c)
  }

  /** The first attribute, not a dunder, that holds `obj`. */
  function AliasFor(attrs: Dict, obj: Obj): (r: Option<string>)
    ensures r.Some? ==> exists i | 0 <= i < |attrs| :: attrs[i] == Entry(r.value, obj) && !("__" <= r.value)
  {
    if attrs == [] then None
    else if attrs[0].value == obj && !("__" <= attrs[0].key) then
      assert attrs[0] == Entry(attrs[0].key, obj);
      Some(attrs[0].key)
    else
      var r := AliasFor(attrs[1..], obj);
      assert r.Some? ==> exists i | 0 <= i < |attrs| :: attrs[i] == Entry(r.value, obj) && !("__" <= r.value) by {
        if r.Some? {
          var i :| 0 <= i < |attrs[1..]| && attrs[1..][i] == Entry(r.value, obj) && !("__" <= r.value);
          assert attrs[i + 1] == Entry(r.value, obj);
        }
      }
      r
  }

  /** `route`: where a lazy lookup of `name` goes to find exactly `obj`. */
  function Route(w: World, name: string, obj: Obj): Result<string> {
    if obj !in w.definedIn || !("batcher" <= w.definedIn[obj]) then Err("unroutable public name")
    else
      var defining := w.definedIn[obj];
      if defining !in w.modules then Err("No module named")
      else
        var attrs := w.modules[defining].attrs;
        if Get(attrs, name) == Some(obj) then Ok(defining)
        else
          var alias := AliasFor(attrs, obj);
          if alias.None? then Err("not reachable from its defining module")
          else Ok(defining + ":" + alias.value)
  }

  /** `_resolve`: import the module a route names and read the attribute out of it. */
  function Resolve(w: World, route: string, name: string): Result<Obj> {
    var k := IndexOf(route, ':');
    var attr := if k == |route| then "" else route[k + 1..];
    Attr(w, route[..k], if attr == "" then name else attr)
  }

  /** Module names hold no colon, attribute names are not empty, namespaces are dictionaries. */
  ghost predicate WellNamed(w: World) {
    forall m | m in w.modules ::
      && ':' !in m && Distinct(Keys(w.modules[m].attrs))
      && forall i | 0 <= i < |w.modules[m].attrs| :: w.modules[m].attrs[i].key != ""
  }

  lemma {:induction false} IndexOfAbsent(m: string, rest: string)
    requires ':' !in m
    ensures IndexOf(m, ':') == |m| && IndexOf(m + ":" + rest, ':') == |m|
  {
    var s := m + ":" + rest;
    assert forall j | 0 <= j < |m| :: s[j] == m[j];
    assert s[|m|] == ':';
  }

  /** Following a generated route from the defining module returns the very object the
      façade bound, under its own name or renamed. */
  lemma ResolvePlain(w: World, m: string, name: string)
    requires ':' !in m
    ensures Resolve(w, m, name) == Attr(w, m, name)
  {
    IndexOfAbsent(m, "");
    assert m[..|m|] == m;
  }

  lemma ResolveAlias(w: World, m: string, alias: string, name: string)
    requires ':' !in m && alias != ""
    ensures Resolve(w, m + ":" + alias, name) == Attr(w, m, alias)
  {
    var route := m + ":" + alias;
    IndexOfAbsent(m, alias);
    assert route[..|m|] == m && route[|m| + 1..] == alias;
  }

  lemma {:induction false} RouteResolves(w: World, name: string, obj: Obj, route: string)
    requires WellNamed(w) && Route(w, name, obj) == Ok(route)
    ensures Resolve(w, route, name) == Ok(obj)
  {
    var defining := w.definedIn[obj];
    var attrs := w.modules[defining].attrs;
    if Get(attrs, name) == Some(obj) {
      ResolvePlain(w, defining, name);
    } else {
      var alias := AliasFor(attrs, obj).value;
      var i :| 0 <= i < |attrs| && attrs[i] == Entry(alias, obj);
      GetAt(attrs, i);
      ResolveAlias(w, defining, alias, name);
    }
  }

  lemma {:induction false} AliasExists(attrs: Dict, obj: Obj, i: nat)
    requires i < |attrs| && attrs[i].value == obj && !("__" <= attrs[i].key)
    ensures AliasFor(attrs, obj).Some?
  {
    if i > 0 {
      AliasExists(attrs[1..], obj, i - 1);
    }
  }

  /** An object is routable exactly when its defining module is a batcher module that
      still holds it, as `name` or under some name that is not a dunder. */
  lemma RoutableExactly(w: World, name: string, obj: Obj)
    requires WellNamed(w)
    ensures Route(w, name, obj).Ok? <==>
      && obj in w.definedIn && "batcher" <= w.definedIn[obj] && w.definedIn[obj] in w.modules
      && exists i | 0 <= i < |w.modules[w.definedIn[obj]].attrs| ::
           var e := w.modules[w.definedIn[obj]].attrs[i];
           e.value == obj && (e.key == name || !("__" <= e.key))
  {
    if obj in w.definedIn && "batcher" <= w.definedIn[obj] && w.definedIn[obj] in w.modules {
      var attrs := w.modules[w.definedIn[obj]].attrs;
      if Get(attrs, name) == Some(obj) {
        GetSome(attrs, name);
      }
      if exists i | 0 <= i < |attrs| :: attrs[i].value == obj && (attrs[i].key == name || !("__" <= attrs[i].key)) {
        var i :| 0 <= i < |attrs| && attrs[i].value == obj && (attrs[i].key == name || !("__" <= attrs[i].key));
        if attrs[i].key == name {
          GetAt(attrs, i);
        } else {
          AliasExists(attrs, obj, i);
        }
      }
    }
  }

  lemma {:induction false} GetSome(d: Dict, key: string)
    requires Get(d, key).Some?
    ensures exists i | 0 <= i < |d| :: d[i] == Entry(key, Get(d, key).value)
  {
    if d[0].key == key {
      assert d[0] == Entry(key, Get(d, key).value);
    } else {
      GetSome(d[1..], key);
      var i :| 0 <= i < |d[1..]| && d[1..][i] == Entry(key, Get(d, key).value);
      assert d[i + 1] == Entry(key, Get(d, key).value);
    }
  }

  /** One entry of a routing table. */
  datatype Row = Row(name: string, route: string)

  function TableOf(w: World, surface: Dict): Result<seq<Row>> {
    if surface == [] then Ok([])
    else
      var n := |surface| - 1;
      var before := TableOf(w, surface[..n]);
      if before.Err? then before
      else
        var route := Route(w, surface[n].key, surface[n].value);
        if route.Err? then Err(route.reason) else Ok(before.value + [Row(surface[n].key, route.value)])
  }

  lemma TableLast(w: World, surface: Dict, table: seq<Row>)
    requires TableOf(w, surface) == Ok(table) && surface != []
    ensures
      var n := |surface| - 1;
      var before, route := TableOf(w, surface[..n]), Route(w, surface[n].key, surface[n].value);
      before.Ok? && route.Ok? && table == before.value + [Row(surface[n].key, route.value)]
  {
  }

  lemma {:induction false} TableSize(w: World, surface: Dict, table: seq<Row>)
    requires TableOf(w, surface) == Ok(table)
    ensures |table| == |surface|
    decreases |surface|
  {
    if surface != [] {
      TableLast(w, surface, table);
      TableSize(w, surface[..|surface| - 1], TableOf(w, surface[..|surface| - 1]).value);
    }
  }

  lemma {:induction false} TableRow(w: World, surface: Dict, table: seq<Row>, i: nat)
    requires TableOf(w, surface) == Ok(table) && i < |surface|
    ensures |table| == |surface| && table[i].name == surface[i].key
    ensures Route(w, surface[i].key, surface[i].value) == Ok(table[i].route)
    decreases |surface|
  {
    var n := |surface| - 1;
    var front := surface[..n];
    TableLast(w, surface, table);
    var before := TableOf(w, front).value;
    TableSize(w, front, before);
    if i < n {
      TableRow(w, front, before, i);
      assert table[i] == before[i] && front[i] == surface[i];
    }
  }

  /** A routing table lists the surface's names in order, and every row resolves to the
      object the surface holds. */
  lemma {:induction false} TableServes(w: World, surface: Dict, table: seq<Row>, i: nat)
    requires WellNamed(w) && TableOf(w, surface) == Ok(table) && i < |surface|
    ensures |table| == |surface| && table[i].name == surface[i].key
    ensures Resolve(w, table[i].route, table[i].name) == Ok(surface[i].value)
  {
    TableRow(w, surface, table, i);
    RouteResolves(w, surface[i].key, surface[i].value, table[i].route);
  }

  // --- The façade at run time ------------------------------------------------------

  /** What a façade was installed with: the routing table, the names that collide with
      submodules, what importing each public subpackage yields, and the error for a name it
      does not know. */
  datatype Installed = Installed(
    world: World, table: map<string, string>, shadowed: set<string>,
    subpackages: map<string, Result<Obj>>, onMissing: string -> string)

  /** What it has bound so far. */
  datatype Bound = Bound(namespace: map<string, Obj>, cache: map<string, Obj>)

  /** The answer to an attribute access: the cache for shadowed names, else the namespace,
      else the table, else a subpackage, imported on first touch; private names are never
      routed. */
  function Answer(f: Installed, b: Bound, name: string): Result<Obj> {
    if name in f.shadowed then
      if name in b.cache then Ok(b.cache[name])
      else if name in f.table then Resolve(f.world, f.table[name], name)
      else Err("KeyError")
    else if name in b.namespace then Ok(b.namespace[name])
    else if "_" <= name then Err("module has no attribute")
    else if name in f.table then Resolve(f.world, f.table[name], name)
    else if name in f.subpackages then f.subpackages[name]
    else Err(f.onMissing(name))
  }

  /** What an access leaves bound. */
  function Touched(f: Installed, b: Bound, name: string): Bound {
    var answer := Answer(f, b, name);
    if answer.Err? then b
    else if name in f.shadowed then b.(cache := b.cache[name := answer.value])
    else b.(namespace := b.namespace[name := answer.value])
  }

  /** A lazy façade module. Importing a submodule binds its name in the namespace behind
      the façade's back; names that collide with submodules are served from a cache the
      import machinery cannot reach. */
  class LazyFacade {
    const installed: Installed
    var namespace: map<string, Obj>
    var cache: map<string, Obj>

    constructor (installed: Installed)
      ensures this.installed == installed && Contents() == Bound(map[], map[])
    {
      this.installed := installed;
      namespace, cache := map[], map[];
    }

    function Contents(): Bound
      reads this
    {
      Bound(namespace, cache)
    }

    /** The import machinery binding a freshly imported submodule on its package. */
    method ImportSubmodule(name: string, obj: Obj)
      modifies this
      ensures Contents() == old(Contents()).(namespace := old(namespace)[name := obj])
    {
      namespace := namespace[name := obj];
    }

    method GetAttr(name: string) returns (r: Result<Obj>)
      modifies this
      ensures r == Answer(installed, old(Contents()), name)
      ensures Contents() == Touched(installed, old(Contents()), name)
    {
      if name in installed.shadowed {
        if name !in cache {
          if name !in installed.table {
            return Err("KeyError");
          }
          r := Resolve(installed.world, installed.table[name], name);
          if r.Err? {
            return;
          }
          cache := cache[name := r.value];
        }
        return Ok(cache[name]);
      }
      if name in namespace {
        assert namespace[name := namespace[name]] == namespace;
        return Ok(namespace[name]);
      }
      if "_" <= name {
        return Err("module has no attribute");
      }
      if name in installed.table {
        r := Resolve(installed.world, installed.table[name], name);
        if r.Ok? {
          namespace := namespace[name := r.value];
        }
        return;
      }
      if name in installed.subpackages {
        r := installed.subpackages[name];
        if r.Ok? {
          namespace := namespace[name := r.value];
        }
        return;
      }
      r := Err(installed.onMissing(name));
    }
  }

  /** What a script does to a façade. */
  datatype Act = Touch(name: string) | Submodule(name: string, obj: Obj)

  function Step(f: Installed, b: Bound, act: Act): Bound {
    match act
    case Touch(name) => Touched(f, b, name)
    case Submodule(name, obj) => b.(namespace := b.namespace[name := obj])
  }

  /** What is bound after a script. */
  function Play(f: Installed, acts: seq<Act>): Bound {
    if acts == [] then Bound(map[], map[])
    else Step(f, Play(f, acts[..|acts| - 1]), acts[|acts| - 1])
  }

  /** The table resolves every name to the object the eager façade binds. */
  ghost predicate Serves(f: Installed, eager: map<string, Obj>) {
    && f.table.Keys == eager.Keys
    && forall name | name in eager :: Resolve(f.world, f.table[name], name) == Ok(eager[name])
  }

  /** Nothing but eager objects is bound under the exported names. */
  ghost predicate Honest(f: Installed, eager: map<string, Obj>, b: Bound) {
    && (forall name | name in b.cache :: name in eager && b.cache[name] == eager[name])
    && (forall name | name in b.namespace && name in eager && name !in f.shadowed ::
          b.namespace[name] == eager[name])
  }

  lemma TouchHonest(f: Installed, eager: map<string, Obj>, b: Bound, name: string)
    requires Serves(f, eager) && Honest(f, eager, b)
    ensures name in eager && (name in f.shadowed || !("_" <= name)) ==> Answer(f, b, name) == Ok(eager[name])
    ensures Honest(f, eager, Touched(f, b, name))
  {
    AnswerHonest(f, eager, b, name);
    BoundHonest(f, eager, b, name, Answer(f, b, name));
  }

  lemma AnswerHonest(f: Installed, eager: map<string, Obj>, b: Bound, name: string)
    requires Serves(f, eager) && Honest(f, eager, b)
    ensures name in eager && (name in f.shadowed || !("_" <= name)) ==> Answer(f, b, name) == Ok(eager[name])
    ensures Answer(f, b, name).Ok? && (name in f.shadowed || name in eager) ==>
              name in eager && Answer(f, b, name).value == eager[name]
  {
  }

  lemma BoundHonest(f: Installed, eager: map<string, Obj>, b: Bound, name: string, answer: Result<Obj>)
    requires Honest(f, eager, b) && answer == Answer(f, b, name)
    requires answer.Ok? && (name in f.shadowed || name in eager) ==> name in eager && answer.value == eager[name]
    ensures Honest(f, eager, Touched(f, b, name))
  {
    if answer.Ok? {
      if name in f.shadowed {
        CacheHonest(f, eager, b, name, answer.value);
      } else {
        NamespaceHonest(f, eager, b, name, answer.value);
      }
    }
  }

  lemma CacheHonest(f: Installed, eager: map<string, Obj>, b: Bound, name: string, obj: Obj)
    requires Honest(f, eager, b) && name in eager && obj == eager[name]
    ensures Honest(f, eager, b.(cache := b.cache[name := obj]))
  {
  }

  lemma NamespaceHonest(f: Installed, eager: map<string, Obj>, b: Bound, name: string, obj: Obj)
    requires Honest(f, eager, b) && (name in eager && name !in f.shadowed ==> obj == eager[name])
    ensures Honest(f, eager, b.(namespace := b.namespace[name := obj]))
  {
  }

  /** The scripts Python can run: only submodules are bound from outside. */
  ghost predicate Possible(acts: seq<Act>, submodules: set<string>) {
    forall i | 0 <= i < |acts| && acts[i].Submodule? :: acts[i].name in submodules
  }

  lemma {:induction false} PlayHonest(f: Installed, eager: map<string, Obj>, acts: seq<Act>, submodules: set<string>)
    requires Serves(f, eager) && Possible(acts, submodules) && submodules * f.table.Keys <= f.shadowed
    ensures Honest(f, eager, Play(f, acts))
  {
    if acts != [] {
      var n := |acts| - 1;
      PlayHonest(f, eager, acts[..n], submodules);
      match acts[n]
      case Touch(name) => TouchHonest(f, eager, Play(f, acts[..n]), name);
      case Submodule(name, obj) =>
        assert name in eager ==> name in submodules * f.table.Keys;
    }
  }

  /** After any script of accesses and submodule imports, in any order, every public name
      the façade exports is still served as the eager façade's object. */
  lemma {:induction false} EveryScriptServed(
    f: Installed, eager: map<string, Obj>, acts: seq<Act>, submodules: set<string>, name: string)
    requires Serves(f, eager) && Possible(acts, submodules) && submodules * f.table.Keys <= f.shadowed
    requires name in eager && !("_" <= name)
    ensures Answer(f, Play(f, acts), name) == Ok(eager[name])
  {
    PlayHonest(f, eager, acts, submodules);
    TouchHonest(f, eager, Play(f, acts), name);
  }

  // --- The names a façade does not export --------------------------------------------

  /** The object of the last import of a submodule called `name`. */
  ghost function LastImport(acts: seq<Act>, name: string): Option<Obj> {
    if acts == [] then None
    else
      var n := |acts| - 1;
      if acts[n].Submodule? && acts[n].name == name then Some(acts[n].obj) else LastImport(acts[..n], name)
  }

  /** What such a name is answered with: the submodule, if it was imported; otherwise nothing
      when it is private, the subpackage when it is one, and the hook's error. */
  ghost function OtherAnswer(f: Installed, imported: Option<Obj>, name: string): Result<Obj> {
    match imported
    case Some(obj) => Ok(obj)
    case None =>
      if "_" <= name then Err("module has no attribute")
      else if name in f.subpackages then f.subpackages[name]
      else Err(f.onMissing(name))
  }

  lemma {:induction false} OthersBound(f: Installed, acts: seq<Act>, name: string)
    requires name !in f.shadowed && (name !in f.table || "_" <= name)
    ensures
      var b := Play(f, acts);
      && (LastImport(acts, name).Some? ==> name in b.namespace)
      && (name in b.namespace ==> OtherAnswer(f, LastImport(acts, name), name) == Ok(b.namespace[name]))
  {
    if acts != [] {
      OthersBound(f, acts[..|acts| - 1], name);
    }
  }

  /** After any script a name that is not exported, or private, is answered by the import
      machinery and the subpackages alone. */
  lemma OthersAnswered(f: Installed, acts: seq<Act>, name: string)
    requires name !in f.shadowed && (name !in f.table || "_" <= name)
    ensures Answer(f, Play(f, acts), name) == OtherAnswer(f, LastImport(acts, name), name)
  {
    OthersBound(f, acts, name);
  }

  /** And a name in the shadow set without a route is an error, whatever was imported. */
  lemma {:induction false} ShadowNeedsRoute(f: Installed, acts: seq<Act>, name: string)
    requires name in f.shadowed && name !in f.table
    ensures name !in Play(f, acts).cache && Answer(f, Play(f, acts), name) == Err("KeyError")
  {
    if acts != [] {
      ShadowNeedsRoute(f, acts[..|acts| - 1], name);
    }
  }

  function RowsMap(rows: seq<Row>): map<string, string> {
    if rows == [] then map[] else RowsMap(rows[..|rows| - 1])[rows[|rows| - 1].name := rows[|rows| - 1].route]
  }

  function DictMap(d: Dict): map<string, Obj> {
    if d == [] then map[] else DictMap(d[..|d| - 1])[d[|d| - 1].key := d[|d| - 1].value]
  }

  lemma {:induction false} TableMapServes(w: World, surface: Dict, table: seq<Row>, name: string)
    requires WellNamed(w) && TableOf(w, surface) == Ok(table)
    ensures name in RowsMap(table) <==> name in DictMap(surface)
    ensures name in DictMap(surface) ==> Resolve(w, RowsMap(table)[name], name) == Ok(DictMap(surface)[name])
    decreases |surface|
  {
    if surface != [] {
      var n := |surface| - 1;
      TableRow(w, surface, table, n);
      assert table[..n] == TableOf(w, surface[..n]).value;
      TableMapServes(w, surface[..n], table[..n], name);
      RouteResolves(w, surface[n].key, surface[n].value, table[n].route);
    }
  }

  /** From declaration to lookup: install the table generated for a declared surface, and
      the façade serves that surface. */
  lemma {:induction false} GeneratedServes(
    w: World, surface: Dict, table: seq<Row>, shadowed: set<string>, subpackages: map<string, Result<Obj>>,
    onMissing: string -> string)
    requires WellNamed(w) && TableOf(w, surface) == Ok(table)
    ensures Serves(Installed(w, RowsMap(table), shadowed, subpackages, onMissing), DictMap(surface))
  {
    forall name
      ensures name in RowsMap(table) <==> name in DictMap(surface)
      ensures name in DictMap(surface) ==> Resolve(w, RowsMap(table)[name], name) == Ok(DictMap(surface)[name])
    {
      TableMapServes(w, surface, table, name);
    }
  }

  /** The shadow set is needed in full: leave out one exported name that is a submodule,
      and a script that imports the submodule is answered with the module. */
  lemma MissingShadowFails(f: Installed, eager: map<string, Obj>, name: string, obj: Obj)
    requires Serves(f, eager) && name in eager && name !in f.shadowed && obj != eager[name]
    ensures Answer(f, Play(f, [Submodule(name, obj)]), name) == Ok(obj)
  {
    var acts := [Submodule(name, obj)];
    assert acts[..0] == [];
    assert Play(f, acts) == Step(f, Play(f, []), acts[0]);
  }
}
