/** Decimal numerals, as `format!` writes them. */
module Decimal {

  function Digit(d: nat): char
    requires d < 10
  {
    (d + '0' as int) as char
  }

  predicate IsNumeral(s: string) {
    forall i | 0 <= i < |s| :: '0' <= s[i] <= '9'
  }

  function Numeral(n: nat): (s: string)
    ensures s != [] && IsNumeral(s)
  {
    if n < 10 then [Digit(n)] else Numeral(n / 10) + [Digit(n % 10)]
  }

  function Value(s: string): nat
    requires IsNumeral(s)
  {
    if s == [] then 0 else 10 * Value(s[..|s| - 1]) + (s[|s| - 1] as int - '0' as int)
  }

  lemma {:induction false} ValueOfNumeral(n: nat)
    ensures Value(Numeral(n)) == n
  {
    if n < 10 {
      assert Numeral(n)[..0] == [];
    } else {
      ValueOfNumeral(n / 10);
      assert Numeral(n)[..|Numeral(n)| - 1] == Numeral(n / 10);
    }
  }

  lemma NumeralInjective(a: nat, b: nat)
    requires Numeral(a) == Numeral(b)
    ensures a == b
  {
    ValueOfNumeral(a);
    ValueOfNumeral(b);
  }

  /** A numeral below 10^k has at most k digits. */
  lemma {:induction false} NumeralLength(n: nat, k: nat)
    requires k > 0 && n < Power10(k)
    ensures |Numeral(n)| <= k
  {
    if n >= 10 {
      assert k > 1;
      assert n / 10 < Power10(k - 1);
      NumeralLength(n / 10, k - 1);
    }
  }

  function Power10(k: nat): nat {
    if k == 0 then 1 else 10 * Power10(k - 1)
  }
}

/**
 The portable-id allocator: four maps from raw graph ids to authority-free names, filled
 by binding imported names and by searching for the first free `kind:number`.
 */
module PortableIds {
  import opened Decimal

  function Candidate(kind: string, n: nat): string {
    kind + ":" + Numeral(n)
  }

  lemma CandidateInjective(kind: string, a: nat, b: nat)
    requires Candidate(kind, a) == Candidate(kind, b)
    ensures a == b
  {
    var prefix := kind + ":";
    assert Numeral(a) == Candidate(kind, a)[|prefix|..];
    assert Numeral(b) == Candidate(kind, b)[|prefix|..];
    NumeralInjective(a, b);
  }

  ghost predicate Injective<K(!new), V>(m: map<K, V>) {
    forall x, y | x in m && y in m && m[x] == m[y] :: x == y
  }

  ghost predicate Extends<K(!new), V>(m: map<K, V>, m': map<K, V>) {
    forall x | x in m :: x in m' && m'[x] == m[x]
  }

  /** The least number from `next` on whose name is not taken; each step takes one name away. */
  function FirstFree(taken: set<string>, kind: string, next: nat): nat
    decreases |taken|
  {
    if Candidate(kind, next) !in taken then next
    else
      assert |taken - {Candidate(kind, next)}| < |taken|;
      FirstFree(taken - {Candidate(kind, next)}, kind, next + 1)
  }

  lemma {:induction false} FirstFreeIsFirst(taken: set<string>, kind: string, next: nat)
    ensures next <= FirstFree(taken, kind, next)
    ensures Candidate(kind, FirstFree(taken, kind, next)) !in taken
    ensures forall m | next <= m < FirstFree(taken, kind, next) :: Candidate(kind, m) in taken
    decreases |taken|
  {
    var first := Candidate(kind, next);
    if first in taken {
      assert |taken - {first}| < |taken|;
      FirstFreeIsFirst(taken - {first}, kind, next + 1);
      if Candidate(kind, FirstFree(taken, kind, next)) == first {
        CandidateInjective(kind, FirstFree(taken, kind, next), next);
      }
    }
  }

  /** The portable form a reader asks of an identifier: its kind, a colon, and 1 to 127 letters, digits, dots, underscores or hyphens. */
  predicate IsPortable(id: string, kind: string) {
    && |id| <= 128 && kind + ":" < id
    && forall i | |kind| + 1 <= i < |id| ::
         '0' <= id[i] <= '9' || 'a' <= id[i] <= 'z' || 'A' <= id[i] <= 'Z' || id[i] == '.' || id[i] == '_' || id[i] == '-'
  }

  /** Every allocated name has that form, as long as fewer than 10^100 names are taken. */
  lemma CandidateIsPortable(kind: string, n: nat)
    requires |kind| <= 27 && n < Power10(100)
    ensures IsPortable(Candidate(kind, n), kind)
  {
    NumeralLength(n, 100);
    var id, digits := Candidate(kind, n), Numeral(n);
    assert forall i | 0 <= i < |digits| :: '0' <= digits[i] <= '9';
    forall i | |kind| + 1 <= i < |id|
      ensures '0' <= id[i] <= '9'
    {
      assert id[i] == digits[i - |kind| - 1];
    }
  }

  /** A first name in an empty map is the kind with number one, and each map names its own kind. */
  lemma FirstNames(raw: int)
    ensures Named(map[], raw, "node") == map[raw := "node:1"]
    ensures Word(NodeId) == "node" && Word(EdgeId) == "edge" && Word(LayerId) == "layer" && Word(ActionId) == "action"
  {
    assert Numeral(1) == "1" && Candidate("node", 1) == "node:1";
    var empty: map<int, string> := map[];
    assert empty.Values == {} && FirstFree({}, "node", 1) == 1;
    assert Named(empty, raw, "node") == empty[raw := "node:1"];
  }

  function Named(ids: map<int, string>, raw: int, kind: string): map<int, string> {
    if raw in ids then ids else ids[raw := Candidate(kind, FirstFree(ids.Values, kind, |ids| + 1))]
  }

  lemma NamedKeeps(ids: map<int, string>, raw: int, kind: string)
    requires Injective(ids)
    ensures Injective(Named(ids, raw, kind)) && Extends(ids, Named(ids, raw, kind)) && raw in Named(ids, raw, kind)
  {
    if raw !in ids {
      FirstFreeIsFirst(ids.Values, kind, |ids| + 1);
      assert forall x | x in ids :: ids[x] in ids.Values;
    }
  }

  method NextId(ids: map<int, string>, raw: int, kind: string) returns (id: string, ids': map<int, string>)
    requires Injective(ids)
    ensures ids' == Named(ids, raw, kind) && raw in ids' && id == ids'[raw]
    ensures Injective(ids') && Extends(ids, ids')
  {
    NamedKeeps(ids, raw, kind);
    if raw in ids {
      return ids[raw], ids;
    }
    var next := |ids| + 1;
    ghost var untested := ids.Values;
    while Candidate(kind, next) in ids.Values
      invariant |ids| + 1 <= next
      invariant untested <= ids.Values
      invariant forall v | v in ids.Values && v !in untested :: exists m :: 0 <= m < next && v == Candidate(kind, m)
      invariant FirstFree(untested, kind, next) == FirstFree(ids.Values, kind, |ids| + 1)
      decreases |untested|
    {
      forall m | 0 <= m < next
        ensures Candidate(kind, m) != Candidate(kind, next)
      {
        if Candidate(kind, m) == Candidate(kind, next) {
          CandidateInjective(kind, m, next);
        }
      }
      ghost var rest := untested - {Candidate(kind, next)};
      assert untested == rest + {Candidate(kind, next)};
      untested := rest;
      next := next + 1;
    }
    id := Candidate(kind, next);
    ids' := ids[raw := id];
  }

  predicate Bindable(ids: map<int, string>, raw: int, portable: string) {
    if raw in ids then ids[raw] == portable else portable !in ids.Values
  }

  /** Binding succeeds exactly when the pair is already there or clashes with nothing, and then only adds it. */
  method BindId(ids: map<int, string>, raw: int, portable: string) returns (ok: bool, ids': map<int, string>)
    requires Injective(ids)
    ensures ok <==> Bindable(ids, raw, portable)
    ensures ids' == if ok then ids[raw := portable] else ids
    ensures Injective(ids') && Extends(ids, ids')
  {
    if raw in ids {
      return ids[raw] == portable, ids;
    }
    if portable in ids.Values {
      return false, ids;
    }
    BoundKeeps(ids, raw, portable);
    return true, ids[raw := portable];
  }

  // ------------------------------------------------------------ four maps, any interleaving

  datatype IdKind = NodeId | EdgeId | LayerId | ActionId

  datatype Maps = Maps(node: map<int, string>, edge: map<int, string>, layer: map<int, string>, action: map<int, string>) {
    function Of(kind: IdKind): map<int, string> {
      match kind case NodeId => node case EdgeId => edge case LayerId => layer case ActionId => action
    }

    function With(kind: IdKind, ids: map<int, string>): Maps {
      match kind
      case NodeId => this.(node := ids)
      case EdgeId => this.(edge := ids)
      case LayerId => this.(layer := ids)
      case ActionId => this.(action := ids)
    }

    ghost predicate AllInjective() {
      Injective(node) && Injective(edge) && Injective(layer) && Injective(action)
    }

    ghost predicate GrowsTo(m: Maps) {
      Extends(node, m.node) && Extends(edge, m.edge) && Extends(layer, m.layer) && Extends(action, m.action)
    }
  }

  function Word(kind: IdKind): string {
    match kind case NodeId => "node" case EdgeId => "edge" case LayerId => "layer" case ActionId => "action"
  }

  datatype Request = Ask(kind: IdKind, raw: int) | Bind(kind: IdKind, raw: int, portable: string)

  /** One request; a refused binding leaves the maps alone. */
  function Answer(m: Maps, r: Request): Maps {
    var ids := m.Of(r.kind);
    match r
    case Ask(kind, raw) => m.With(kind, Named(ids, raw, Word(kind)))
    case Bind(kind, raw, portable) => if Bindable(ids, raw, portable) then m.With(kind, ids[raw := portable]) else m
  }

  function Answers(m: Maps, rs: seq<Request>): Maps {
    if rs == [] then m else Answer(Answers(m, rs[..|rs| - 1]), rs[|rs| - 1])
  }

  lemma WithKeeps(m: Maps, kind: IdKind, ids: map<int, string>)
    requires m.AllInjective() && Injective(ids) && Extends(m.Of(kind), ids)
    ensures m.With(kind, ids).AllInjective() && m.GrowsTo(m.With(kind, ids))
  {
  }

  lemma BoundKeeps(ids: map<int, string>, raw: int, portable: string)
    requires Injective(ids) && Bindable(ids, raw, portable)
    ensures Injective(ids[raw := portable]) && Extends(ids, ids[raw := portable])
  {
    assert forall x | x in ids :: ids[x] in ids.Values;
  }

  lemma AnswerKeeps(m: Maps, r: Request)
    requires m.AllInjective()
    ensures Answer(m, r).AllInjective() && m.GrowsTo(Answer(m, r))
  {
    var ids := m.Of(r.kind);
    match r
    case Ask(kind, raw) =>
      NamedKeeps(ids, raw, Word(kind));
      WithKeeps(m, kind, Named(ids, raw, Word(kind)));
    case Bind(kind, raw, portable) =>
      if Bindable(ids, raw, portable) {
        BoundKeeps(ids, raw, portable);
        WithKeeps(m, kind, ids[raw := portable]);
      }
  }

  lemma GrowsSelf(a: Maps)
    ensures a.GrowsTo(a)
  {
  }

  lemma GrowsOn(a: Maps, b: Maps, c: Maps)
    requires a.GrowsTo(b) && b.GrowsTo(c)
    ensures a.GrowsTo(c)
  {
  }

  /** Whatever the interleaving of bindings and requests, every map stays injective and no assigned id changes. */
  lemma {:induction false} InterleavingsKeep(m: Maps, rs: seq<Request>, i: nat)
    requires m.AllInjective() && i <= |rs|
    ensures Answers(m, rs).AllInjective() && Answers(m, rs[..i]).GrowsTo(Answers(m, rs))
  {
    hide Answer, Injective, Extends;
    if i == |rs| {
      assert rs[..i] == rs;
      GrowsSelf(Answers(m, rs));
      if rs != [] {
        InterleavingsKeep(m, rs[..|rs| - 1], |rs| - 1);
        AnswerKeeps(Answers(m, rs[..|rs| - 1]), rs[|rs| - 1]);
      }
    } else {
      var front := rs[..|rs| - 1];
      InterleavingsKeep(m, front, i);
      assert front[..i] == rs[..i];
      AnswerKeeps(Answers(m, front), rs[|rs| - 1]);
      GrowsOn(Answers(m, rs[..i]), Answers(m, front), Answers(m, rs));
    }
  }

  ghost predicate Bound(m: map<int, string>, raw: int, portable: string) {
    raw in m && m[raw] == portable
  }

  /** An injective naming that the maps may still grow into. */
  ghost predicate Fits(f: Maps, s: Maps) {
    f.AllInjective() && s.GrowsTo(f)
  }

  /** A binding that some naming still open to the maps would make is never refused. */
  lemma BindingFits(s: Maps, kind: IdKind, raw: int, portable: string, f: Maps)
    requires Fits(f, s) && Bound(f.Of(kind), raw, portable)
    ensures Bindable(s.Of(kind), raw, portable) && Fits(f, Answer(s, Bind(kind, raw, portable)))
  {
    var ids, names := s.Of(kind), f.Of(kind);
    assert Extends(ids, names) && Injective(names);
    assert forall r | r in ids :: names[r] == ids[r];
  }

  class PortableIds {
    var node: map<int, string>
    var edge: map<int, string>
    var layer: map<int, string>
    var action: map<int, string>

    ghost function State(): Maps
      reads this
    {
      Maps(node, edge, layer, action)
    }

    ghost predicate Valid()
      reads this
    {
      State().AllInjective()
    }

    constructor ()
      ensures Valid() && State() == Maps(map[], map[], map[], map[])
    {
      node, edge, layer, action := map[], map[], map[], map[];
    }

    method Node(raw: int) returns (id: string)
      requires Valid()
      modifies this
      ensures Valid() && State() == Answer(old(State()), Ask(NodeId, raw)) && raw in node && id == node[raw]
      ensures old(State()).GrowsTo(State())
    {
      id, node := NextId(node, raw, "node");
    }

    method Edge(raw: int) returns (id: string)
      requires Valid()
      modifies this
      ensures Valid() && State() == Answer(old(State()), Ask(EdgeId, raw)) && raw in edge && id == edge[raw]
      ensures old(State()).GrowsTo(State())
    {
      id, edge := NextId(edge, raw, "edge");
    }

    method Layer(raw: int) returns (id: string)
      requires Valid()
      modifies this
      ensures Valid() && State() == Answer(old(State()), Ask(LayerId, raw)) && raw in layer && id == layer[raw]
      ensures old(State()).GrowsTo(State())
    {
      id, layer := NextId(layer, raw, "layer");
    }

    method Action(raw: int) returns (id: string)
      requires Valid()
      modifies this
      ensures Valid() && State() == Answer(old(State()), Ask(ActionId, raw)) && raw in action && id == action[raw]
      ensures old(State()).GrowsTo(State())
    {
      id, action := NextId(action, raw, "action");
    }

    method BindNode(raw: int, portable: string) returns (ok: bool)
      requires Valid()
      modifies this
      ensures Valid() && State() == Answer(old(State()), Bind(NodeId, raw, portable))
      ensures ok <==> Bound(node, raw, portable)
      ensures old(State()).GrowsTo(State())
      ensures forall f | Fits(f, old(State())) && Bound(f.node, raw, portable) :: ok && Fits(f, State())
    {
      forall f | Fits(f, State()) && Bound(f.node, raw, portable) { BindingFits(State(), NodeId, raw, portable, f); }
      hide Fits;
      ok, node := BindId(node, raw, portable);
    }

    method BindEdge(raw: int, portable: string) returns (ok: bool)
      requires Valid()
      modifies this
      ensures Valid() && State() == Answer(old(State()), Bind(EdgeId, raw, portable))
      ensures ok <==> Bound(edge, raw, portable)
      ensures old(State()).GrowsTo(State())
      ensures forall f | Fits(f, old(State())) && Bound(f.edge, raw, portable) :: ok && Fits(f, State())
    {
      forall f | Fits(f, State()) && Bound(f.edge, raw, portable) { BindingFits(State(), EdgeId, raw, portable, f); }
      hide Fits;
      ok, edge := BindId(edge, raw, portable);
    }

    method BindLayer(raw: int, portable: string) returns (ok: bool)
      requires Valid()
      modifies this
      ensures Valid() && State() == Answer(old(State()), Bind(LayerId, raw, portable))
      ensures ok <==> Bound(layer, raw, portable)
      ensures old(State()).GrowsTo(State())
      ensures forall f | Fits(f, old(State())) && Bound(f.layer, raw, portable) :: ok && Fits(f, State())
    {
      forall f | Fits(f, State()) && Bound(f.layer, raw, portable) { BindingFits(State(), LayerId, raw, portable, f); }
      hide Fits;
      ok, layer := BindId(layer, raw, portable);
    }

    method BindAction(raw: int, portable: string) returns (ok: bool)
      requires Valid()
      modifies this
      ensures Valid() && State() == Answer(old(State()), Bind(ActionId, raw, portable))
      ensures ok <==> Bound(action, raw, portable)
      ensures old(State()).GrowsTo(State())
      ensures forall f | Fits(f, old(State())) && Bound(f.action, raw, portable) :: ok && Fits(f, State())
    {
      forall f | Fits(f, State()) && Bound(f.action, raw, portable) { BindingFits(State(), ActionId, raw, portable, f); }
      hide Fits;
      ok, action := BindId(action, raw, portable);
    }
  }
}
