/** Rewriting a sharded checkpoint so that chosen vocabulary tensors are stored as INT8. */
module Checkpoint {
  import opened Basics
  import opened Quantiser

  datatype Tensor = Matrix(rows: seq<Row>) | Codes(q: seq<seq<int>>) | Column(s: seq<real>)

  type Shard = map<string, Tensor>
  type Index = map<string, string>

  datatype Target = Embed | LmHead

  datatype Failure = NotExactlyOne(target: Target) | MissingShard(shard: string) | NotTwoDimensional(name: string)

  // ----- targets

  function Suffix(t: Target): string {
    match t
    case Embed => "embed_tokens.weight"
    case LmHead => "lm_head.weight"
  }

  predicate EndsWith(s: string, end: string) {
    |end| <= |s| && s[|s| - |end|..] == end
  }

  predicate Carries(name: string, t: Target) {
    name == Suffix(t) || EndsWith(name, "." + Suffix(t))
  }

  function Carriers(index: Index, t: Target): set<string> {
    set n | n in index && Carries(n, t)
  }

  /** The one tensor of each target, refused unless there is exactly one. */
  method FindTargets(index: Index, targets: seq<Target>) returns (r: Result<map<Target, string>, Failure>)
    ensures r.Ok? <==> forall t :: t in targets ==> |Carriers(index, t)| == 1
    ensures r.Ok? ==> (forall t :: t in r.value <==> t in targets)
    ensures r.Ok? ==> forall t :: t in r.value ==> Carriers(index, t) == {r.value[t]}
    ensures r.Err? ==> exists t :: t in targets && r.error == NotExactlyOne(t)
  {
    var found: map<Target, string> := map[];
    for i := 0 to |targets|
      invariant forall t :: t in found <==> t in targets[..i]
      invariant forall t :: t in found ==> Carriers(index, t) == {found[t]}
    {
      var names := Carriers(index, targets[i]);
      if |names| != 1 {
        assert targets[i] in targets;
        return Err(NotExactlyOne(targets[i]));
      }
      OneElement(names);
      var name :| name in names;
      found := found[targets[i] := name];
    }
    return Ok(found);
  }

  lemma OneElement(s: set<string>)
    requires |s| == 1
    ensures forall x :: x in s ==> s == {x}
  {
    forall x | x in s ensures s == {x} {
      assert |s - {x}| == 0;
    }
  }

  // ----- names of scales

  function ScaleName(name: string): string {
    name + "_scale"
  }

  predicate IsScaleName(name: string) {
    EndsWith(name, "_scale")
  }

  function WeightName(scale: string): string
    requires IsScaleName(scale)
  {
    scale[..|scale| - 6]
  }

  lemma ScaleNames(name: string)
    ensures IsScaleName(ScaleName(name)) && WeightName(ScaleName(name)) == name
    ensures IsScaleName(name) ==> ScaleName(WeightName(name)) == name
  {
  }

  /** A target's name ends in "weight", so it is never itself the name of a scale. */
  lemma CarrierIsNoScale(index: Index, t: Target, name: string)
    requires name in Carriers(index, t)
    ensures !IsScaleName(name)
  {
    var full := if name == Suffix(t) then Suffix(t) else "." + Suffix(t);
    LastLetter(name, full);
    if IsScaleName(name) { LastLetter(name, "_scale"); }
  }

  lemma LastLetter(s: string, end: string)
    requires EndsWith(s, end) && end != ""
    ensures s[|s| - 1] == end[|end| - 1]
  {
    assert s[|s| - |end|..][|end| - 1] == s[|s| - 1];
  }

  /** The name of a scale that one of the targets in this set gets. */
  predicate IsNew(name: string, targets: set<string>) {
    IsScaleName(name) && WeightName(name) in targets
  }

  // ----- one shard

  function Stored(scales: seq<real>, store: real -> real): seq<real> {
    seq(|scales|, i requires 0 <= i < |scales| => store(scales[i]))
  }

  function CodesOf(t: Tensor, tiny: real): Tensor
    requires tiny > 0.0 && t.Matrix?
  {
    Codes(QuantMatrix(t.rows, tiny))
  }

  function ScaleOf(t: Tensor, tiny: real, store: real -> real): Tensor
    requires tiny > 0.0 && t.Matrix?
  {
    Column(Stored(Scales(t.rows, tiny), store))
  }

  /** What a rewritten shard holds under one name: codes for a target, the scale of a target it
      carries unless that name was taken, and everything else as it was. */
  ghost predicate Entry(a: Shard, b: Shard, names: set<string>, tiny: real, store: real -> real, n: string)
    requires tiny > 0.0
  {
    var added := IsNew(n, names * a.Keys);
    && (n in b <==> n in a || added)
    && (n in a && n in names ==> a[n].Matrix? && b[n] == CodesOf(a[n], tiny))
    && (n in a && n !in names && !added ==> b[n] == a[n])
    && (n !in a && added ==> a[WeightName(n)].Matrix? && b[n] == ScaleOf(a[WeightName(n)], tiny, store))
  }

  ghost predicate ShardRewritten(a: Shard, b: Shard, names: set<string>, tiny: real, store: real -> real)
    requires tiny > 0.0
  {
    forall n :: Entry(a, b, names, tiny, store, n)
  }

  /** One tensor further: a target brings its codes and scale, anything else itself. */
  function AddTensor(out: Shard, names: set<string>, name: string, t: Tensor, tiny: real, store: real -> real): Shard
    requires tiny > 0.0 && (name in names ==> t.Matrix?)
  {
    if name in names then out[name := CodesOf(t, tiny)][ScaleName(name) := ScaleOf(t, tiny, store)]
    else out[name := t]
  }

  lemma AddTensorEntry(seen: Shard, out: Shard, names: set<string>, name: string, t: Tensor, tiny: real, store: real -> real, n: string)
    requires tiny > 0.0 && (name in names ==> t.Matrix?) && (forall m :: m in names ==> !IsScaleName(m))
    requires name !in seen && Entry(seen, out, names, tiny, store, n)
    ensures Entry(seen[name := t], AddTensor(out, names, name, t, tiny, store), names, tiny, store, n)
  {
    hide CodesOf, ScaleOf, ScaleName, IsScaleName, WeightName;
    ScaleNames(name);
    ScaleNames(n);
    assert seen[name := t].Keys == seen.Keys + {name};
  }

  /** Go through a shard's tensors, in any order, quantising the targets. */
  method RewriteShard(shard: Shard, names: set<string>, tiny: real, store: real -> real)
    returns (r: Result<Shard, Failure>)
    requires tiny > 0.0 && forall n :: n in names ==> !IsScaleName(n)
    ensures r.Ok? <==> forall n :: n in shard && n in names ==> shard[n].Matrix?
    ensures r.Ok? ==> ShardRewritten(shard, r.value, names, tiny, store)
    ensures r.Err? ==> r.error.NotTwoDimensional? && r.error.name in shard && r.error.name in names
                       && !shard[r.error.name].Matrix?
  {
    hide AddTensor, Entry, IsScaleName;
    var out: Shard := map[];
    ghost var seen: Shard := map[];
    forall n ensures Entry(seen, out, names, tiny, store, n) { EmptyEntry(names, tiny, store, n); }
    var todo := shard.Keys;
    while todo != {}
      invariant todo <= shard.Keys && seen.Keys == shard.Keys - todo
      invariant forall n :: n in seen ==> seen[n] == shard[n] && (n in names ==> shard[n].Matrix?)
      invariant ShardRewritten(seen, out, names, tiny, store)
    {
      var name :| name in todo;
      var t := shard[name];
      if name in names && !t.Matrix? {
        return Err(NotTwoDimensional(name));
      }
      var next := AddTensor(out, names, name, t, tiny, store);
      ghost var seen' := seen[name := t];
      forall n ensures Entry(seen', next, names, tiny, store, n) {
        AddTensorEntry(seen, out, names, name, t, tiny, store, n);
      }
      out, seen := next, seen';
      todo := todo - {name};
    }
    assert seen == shard;
    return Ok(out);
  }

  lemma EmptyEntry(names: set<string>, tiny: real, store: real -> real, n: string)
    requires tiny > 0.0
    ensures Entry(map[], map[], names, tiny, store, n)
  {
  }

  // ----- the index

  /** What the new index says of one name: a new scale lives where its weight does. */
  ghost predicate IndexEntry(a: Index, b: Index, names: set<string>, n: string)
    requires names <= a.Keys
  {
    && (n in b <==> n in a || IsNew(n, names))
    && (IsNew(n, names) ==> b[n] == a[WeightName(n)])
    && (n in a && !IsNew(n, names) ==> b[n] == a[n])
  }

  ghost predicate IndexRewritten(a: Index, b: Index, names: set<string>)
    requires names <= a.Keys
  {
    forall n :: IndexEntry(a, b, names, n)
  }

  lemma IndexEntryStep(a: Index, b: Index, done: set<string>, name: string, n: string)
    requires done <= a.Keys && name in a && !IsScaleName(name)
    requires IndexEntry(a, b, done, n) && IndexEntry(a, b, done, name)
    ensures name in b && IndexEntry(a, b[ScaleName(name) := b[name]], done + {name}, n)
  {
    hide ScaleName, IsScaleName, WeightName;
    ScaleNames(name);
    ScaleNames(n);
  }

  method RewriteIndex(index: Index, names: set<string>) returns (out: Index)
    requires names <= index.Keys && forall n :: n in names ==> !IsScaleName(n)
    ensures IndexRewritten(index, out, names)
  {
    hide IsScaleName, ScaleName, WeightName;
    out := index;
    var todo := names;
    ghost var done: set<string> := {};
    while todo != {}
      invariant todo <= names && done == names - todo
      invariant IndexRewritten(index, out, done)
    {
      var name :| name in todo;
      assert IndexEntry(index, out, done, name);
      IndexEntryStep(index, out, done, name, name);
      var next := out[ScaleName(name) := out[name]];
      ghost var done' := done + {name};
      forall n ensures IndexEntry(index, next, done', n) {
        assert IndexEntry(index, out, done, n);
        IndexEntryStep(index, out, done, name, n);
      }
      out, done := next, done';
      todo := todo - {name};
    }
    assert done == names;
  }

  // ----- the whole checkpoint

  /** A rewritten checkpoint, in terms of the one it was made from. */
  ghost predicate Rewritten(index: Index, shards: map<string, Shard>, index': Index, shards': map<string, Shard>,
                            names: set<string>, tiny: real, store: real -> real)
    requires tiny > 0.0
  {
    && names <= index.Keys && (forall n :: n in names ==> !IsScaleName(n))
    && IndexRewritten(index, index', names)
    && shards'.Keys == index.Values <= shards.Keys
    && forall s :: s in shards' ==>
         if Touched(index, names, s) then ShardRewritten(shards[s], shards'[s], names, tiny, store)
         else shards'[s] == shards[s]
  }

  /** The shard carries a target. */
  predicate Touched(index: Index, names: set<string>, s: string)
    requires names <= index.Keys
  {
    exists n :: n in names && index[n] == s
  }

  /** Rewrite the shards that carry a target, link the others, then extend the index. */
  method Rewrite(index: Index, shards: map<string, Shard>, names: set<string>, tiny: real, store: real -> real)
    returns (r: Result<(Index, map<string, Shard>), Failure>)
    requires tiny > 0.0 && names <= index.Keys && forall n :: n in names ==> !IsScaleName(n)
    ensures r.Ok? ==> Rewritten(index, shards, r.value.0, r.value.1, names, tiny, store)
    ensures r.Err? ==>
              match r.error
              case MissingShard(s) => s in index.Values && s !in shards
              case NotTwoDimensional(n) => n in names && exists s :: s in shards && n in shards[s] && !shards[s][n].Matrix?
              case NotExactlyOne(_) => false
  {
    hide ShardRewritten, IndexRewritten, IsScaleName, Touched;
    var out: map<string, Shard> := map[];
    var todo := index.Values;
    while todo != {}
      invariant todo <= index.Values && out.Keys == index.Values - todo && out.Keys <= shards.Keys
      invariant forall s :: s in out ==>
                  if Touched(index, names, s) then ShardRewritten(shards[s], out[s], names, tiny, store)
                  else out[s] == shards[s]
    {
      var s :| s in todo;
      if s !in shards {
        return Err(MissingShard(s));
      }
      if !Touched(index, names, s) {
        out := out[s := shards[s]];
      } else {
        var rewritten := RewriteShard(shards[s], names, tiny, store);
        if rewritten.Err? {
          return Err(rewritten.error);
        }
        out := out[s := rewritten.value];
      }
      todo := todo - {s};
    }
    var newIndex := RewriteIndex(index, names);
    return Ok((newIndex, out));
  }

  /** The tensors that carry a target. */
  ghost function TargetNames(index: Index, targets: seq<Target>): set<string> {
    set t, n | t in targets && n in Carriers(index, t) :: n
  }

  /** From the targets asked for to the new checkpoint. */
  method Requantize(index: Index, shards: map<string, Shard>, targets: seq<Target>, tiny: real, store: real -> real)
    returns (r: Result<(Index, map<string, Shard>), Failure>)
    requires tiny > 0.0
    ensures r.Ok? ==> forall t :: t in targets ==> |Carriers(index, t)| == 1
    ensures r.Ok? ==> Rewritten(index, shards, r.value.0, r.value.1, TargetNames(index, targets), tiny, store)
  {
    var found := FindTargets(index, targets);
    if found.Err? {
      return Err(found.error);
    }
    var chosen := found.value.Values;
    forall n ensures n in chosen <==> exists t :: t in targets && n in Carriers(index, t) {
      if t :| t in targets && n in Carriers(index, t) { assert n == found.value[t]; }
    }
    forall n | n in chosen ensures n in index && !IsScaleName(n) {
      var t :| t in targets && n in Carriers(index, t);
      CarrierIsNoScale(index, t, n);
    }
    assert chosen == TargetNames(index, targets);
    r := Rewrite(index, shards, chosen, tiny, store);
  }

  /** The index lists exactly the tensors in each of these shards. */
  ghost predicate Lists(index: Index, shards: map<string, Shard>, which: set<string>) {
    which <= shards.Keys && forall s, n :: s in which ==> Listed(index, shards[s], s, n)
  }

  ghost predicate Listed(index: Index, shard: Shard, s: string, n: string) {
    n in shard <==> n in index && index[n] == s
  }

  /** No scale takes the name of a tensor that lives in another shard. */
  ghost predicate ScalesFit(index: Index, names: set<string>)
    requires names <= index.Keys
  {
    forall n :: n in names && ScaleName(n) in index ==> index[ScaleName(n)] == index[n]
  }

  /** Which tensors a written shard holds: the ones it had, and the scales of its own targets. */
  lemma ShardNames(index: Index, shards: map<string, Shard>, index': Index, shards': map<string, Shard>,
                   names: set<string>, tiny: real, store: real -> real, s: string, n: string)
    requires tiny > 0.0 && Rewritten(index, shards, index', shards', names, tiny, store)
    requires Lists(index, shards, index.Values) && s in shards'
    ensures n in shards'[s] <==> (n in index && index[n] == s) || (IsNew(n, names) && index[WeightName(n)] == s)
  {
    hide IsScaleName, WeightName, IndexRewritten, CodesOf, ScaleOf;
    assert Listed(index, shards[s], s, n);
    if IsNew(n, names) { assert Listed(index, shards[s], s, WeightName(n)); }
    if Touched(index, names, s) {
      assert ShardRewritten(shards[s], shards'[s], names, tiny, store);
      assert Entry(shards[s], shards'[s], names, tiny, store, n);
    }
  }

  /** Index and shards of the output agree if and only if no scale name is taken in another shard. */
  lemma AgreementIffScalesFit(index: Index, shards: map<string, Shard>, index': Index, shards': map<string, Shard>,
                              names: set<string>, tiny: real, store: real -> real)
    requires tiny > 0.0 && Rewritten(index, shards, index', shards', names, tiny, store)
    requires Lists(index, shards, index.Values)
    ensures Lists(index', shards', shards'.Keys) <==> ScalesFit(index, names)
  {
    hide IsScaleName, WeightName, ScaleName, ShardRewritten;
    if ScalesFit(index, names) {
      forall s, n | s in shards' ensures Listed(index', shards'[s], s, n) {
        ShardNames(index, shards, index', shards', names, tiny, store, s, n);
        assert IndexEntry(index, index', names, n);
        ScaleNames(n);
        if IsNew(n, names) && n in index { assert index[ScaleName(WeightName(n))] == index[WeightName(n)]; }
      }
    } else {
      var m :| m in names && ScaleName(m) in index && index[ScaleName(m)] != index[m];
      var s, n := index[ScaleName(m)], ScaleName(m);
      ScaleNames(m);
      ShardNames(index, shards, index', shards', names, tiny, store, s, n);
      assert IndexEntry(index, index', names, n);
      assert !Listed(index', shards'[s], s, n);
    }
  }

  /** Where no scale name is taken, every tensor keeps its shard, everything but the targets keeps
      its value, and each target's codes and scale sit together in the target's shard. */
  lemma RewriteKeepsRest(index: Index, shards: map<string, Shard>, index': Index, shards': map<string, Shard>,
                         names: set<string>, tiny: real, store: real -> real, n: string)
    requires tiny > 0.0 && Rewritten(index, shards, index', shards', names, tiny, store)
    requires Lists(index, shards, index.Values) && n in index
    requires forall m :: m in names ==> ScaleName(m) !in index
    ensures n in index' && index'[n] == index[n] && index[n] in shards' && n in shards'[index[n]]
    ensures n in shards[index[n]]
    ensures n !in names ==> shards'[index[n]][n] == shards[index[n]][n]
    ensures n in names ==>
              var weight := shards[index[n]][n];
              && weight.Matrix? && shards'[index[n]][n] == CodesOf(weight, tiny)
              && ScaleName(n) in index' && index'[ScaleName(n)] == index[n]
              && ScaleName(n) in shards'[index[n]] && shards'[index[n]][ScaleName(n)] == ScaleOf(weight, tiny, store)
  {
    hide IsScaleName, WeightName, ScaleName, CodesOf, ScaleOf;
    var s, scale := index[n], ScaleName(n);
    ScaleNames(n);
    assert s in index.Values && Listed(index, shards[s], s, n) && Listed(index, shards[s], s, scale);
    assert IndexEntry(index, index', names, n) && IndexEntry(index, index', names, scale);
    assert !IsNew(n, names);
    if Touched(index, names, s) {
      assert ShardRewritten(shards[s], shards'[s], names, tiny, store);
      assert Entry(shards[s], shards'[s], names, tiny, store, n);
      assert Entry(shards[s], shards'[s], names, tiny, store, scale);
    }
  }
}
