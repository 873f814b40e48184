/**
 Immutable definitions across a stream. The source keeps one SHA-256 fingerprint of a
 record's encoding per identifier; fingerprints and encodings are taken as injective, so
 the record itself is kept here.
 */
module Definitions {
  import opened ExportModel
  import opened GraphChecks

  // ------------------------------------------------------------ records with one fingerprint

  /** Equal keys mean equal records. */
  ghost predicate OneEach<K, V>(s: set<V>, key: V -> K) {
    forall x, y | x in s && y in s && key(x) == key(y) :: x == y
  }

  /** The map holds exactly the records of `s`, each under its own key. */
  ghost predicate ById<K(!new), V>(m: map<K, V>, s: set<V>, key: V -> K) {
    && (forall x | x in s :: key(x) in m && m[key(x)] == x)
    && (forall k | k in m :: m[k] in s && key(m[k]) == k)
  }

  method Register<K(==, !new), V(==)>(m: map<K, V>, v: V, key: V -> K, ghost seen: set<V>) returns (ok: bool, m': map<K, V>)
    requires ById(m, seen, key)
    ensures ok <==> OneEach(seen + {v}, key)
    ensures ok ==> ById(m', seen + {v}, key)
  {
    m' := m[key(v) := v];
    ok := key(v) !in m || m[key(v)] == v;
    if !ok {
      assert m[key(v)] in seen + {v} && v in seen + {v};
    }
  }

  method RegisterAll<K(==, !new), V(==)>(m: map<K, V>, vs: seq<V>, key: V -> K, ghost seen: set<V>) returns (ok: bool, m': map<K, V>)
    requires ById(m, seen, key)
    ensures ok <==> OneEach(seen + Elements(vs), key)
    ensures ok ==> ById(m', seen + Elements(vs), key)
  {
    hide ById, OneEach;
    m' := m;
    assert seen + Elements(vs[..0]) == seen;
    for i := 0 to |vs|
      invariant ById(m', seen + Elements(vs[..i]), key)
    {
      assert vs[..i + 1] == vs[..i] + [vs[i]];
      assert seen + Elements(vs[..i + 1]) == seen + Elements(vs[..i]) + {vs[i]};
      ok, m' := Register(m', vs[i], key, seen + Elements(vs[..i]));
      if !ok {
        OneEachShrinks(seen + Elements(vs[..i + 1]), seen + Elements(vs), key);
        return;
      }
    }
    assert vs[..|vs|] == vs;
    ByIdIsOneEach(m', seen + Elements(vs), key);
    ok := true;
  }

  lemma OneEachShrinks<K, V>(s: set<V>, t: set<V>, key: V -> K)
    requires s <= t
    ensures OneEach(t, key) ==> OneEach(s, key)
  {
  }

  lemma ByIdIsOneEach<K(!new), V>(m: map<K, V>, s: set<V>, key: V -> K)
    requires ById(m, s, key)
    ensures OneEach(s, key)
  {
  }

  // ------------------------------------------------------------ nodes, whose optional parts may be absent from a copy

  datatype NodeParts = NodeParts(base: string, artifact: Option<string>, detail: Option<string>, assets: Option<seq<string>>)

  /** One appearance of a node id; a context target carries only the base. */
  datatype Copy<I> = Copy(id: I, parts: NodeParts)

  function PartsOf<I>(n: Node<I>): NodeParts {
    NodeParts(n.base, n.artifact, n.authoredDetail, if n.assets == [] then None else Some(n.assets))
  }

  predicate PartAgrees<T(==)>(x: Option<T>, y: Option<T>) {
    x.Some? && y.Some? ==> x == y
  }

  predicate PartsAgree(x: NodeParts, y: NodeParts) {
    && x.base == y.base
    && PartAgrees(x.artifact, y.artifact)
    && PartAgrees(x.assets, y.assets)
    && PartAgrees(x.detail, y.detail)
  }

  /** Any two copies of a node have one base and differ in no optional part both carry. */
  ghost predicate CopiesAgree<I>(s: set<Copy<I>>) {
    forall x, y | x in s && y in s && x.id == y.id :: PartsAgree(x.parts, y.parts)
  }

  function Fill<T>(x: Option<T>, y: Option<T>): Option<T> {
    if x.None? then y else x
  }

  function Merge(x: NodeParts, y: NodeParts): NodeParts {
    NodeParts(x.base, Fill(x.artifact, y.artifact), Fill(x.detail, y.detail), Fill(x.assets, y.assets))
  }

  predicate Carries<T(==)>(x: Option<T>, y: Option<T>) {
    y.Some? ==> x == y
  }

  ghost predicate Covers(x: NodeParts, y: NodeParts) {
    x.base == y.base && Carries(x.artifact, y.artifact) && Carries(x.detail, y.detail) && Carries(x.assets, y.assets)
  }

  /** The kept definition of each node covers every copy, and every part it carries came from one. */
  ghost predicate Merged<I(!new)>(m: map<I, NodeParts>, s: set<Copy<I>>) {
    && (forall c | c in s :: c.id in m && Covers(m[c.id], c.parts))
    && (forall k | k in m ::
          && (exists c :: c in s && c.id == k)
          && (m[k].artifact.Some? ==> exists c :: c in s && c.id == k && c.parts.artifact == m[k].artifact)
          && (m[k].detail.Some? ==> exists c :: c in s && c.id == k && c.parts.detail == m[k].detail)
          && (m[k].assets.Some? ==> exists c :: c in s && c.id == k && c.parts.assets == m[k].assets))
  }

  lemma MergedAgree<I(!new)>(m: map<I, NodeParts>, s: set<Copy<I>>)
    requires Merged(m, s)
    ensures CopiesAgree(s)
  {
  }

  lemma CopiesAgreeShrinks<I>(s: set<Copy<I>>, t: set<Copy<I>>)
    requires s <= t
    ensures CopiesAgree(t) ==> CopiesAgree(s)
  {
  }

  /** A copy disagrees with the kept definition only if it disagrees with some earlier copy. */
  lemma ConflictHasWitness<I(!new)>(m: map<I, NodeParts>, s: set<Copy<I>>, c: Copy<I>)
    requires Merged(m, s) && c.id in m && !PartsAgree(m[c.id], c.parts)
    ensures !CopiesAgree(s + {c})
  {
    var kept, t := m[c.id], s + {c};
    assert c in t;
    if kept.base != c.parts.base {
      var x :| x in s && x.id == c.id;
      assert x in t && Covers(m[x.id], x.parts);
    } else if !PartAgrees(kept.artifact, c.parts.artifact) {
      var x :| x in s && x.id == c.id && x.parts.artifact == kept.artifact;
      assert x in t;
    } else if !PartAgrees(kept.assets, c.parts.assets) {
      var x :| x in s && x.id == c.id && x.parts.assets == kept.assets;
      assert x in t;
    } else {
      var x :| x in s && x.id == c.id && x.parts.detail == kept.detail;
      assert x in t;
    }
  }

  lemma CopyMerged<I(!new)>(m: map<I, NodeParts>, s: set<Copy<I>>, c: Copy<I>)
    requires Merged(m, s) && (c.id in m ==> PartsAgree(m[c.id], c.parts))
    ensures Merged(m[c.id := if c.id in m then Merge(m[c.id], c.parts) else c.parts], s + {c})
  {
    var after, t := m[c.id := if c.id in m then Merge(m[c.id], c.parts) else c.parts], s + {c};
    assert c in t;
    forall k | k in after
      ensures exists x :: x in t && x.id == k
      ensures after[k].artifact.Some? ==> exists x :: x in t && x.id == k && x.parts.artifact == after[k].artifact
      ensures after[k].detail.Some? ==> exists x :: x in t && x.id == k && x.parts.detail == after[k].detail
      ensures after[k].assets.Some? ==> exists x :: x in t && x.id == k && x.parts.assets == after[k].assets
    {
      assert k == c.id || k in m;
      assert forall x | x in s :: x in t;
    }
  }

  /** One registration: refused when it differs from the kept definition, else filling in what that lacks. */
  function Registered<I(==)>(m: map<I, NodeParts>, c: Copy<I>): Option<map<I, NodeParts>> {
    if c.id in m && !PartsAgree(m[c.id], c.parts) then None
    else Some(m[c.id := if c.id in m then Merge(m[c.id], c.parts) else c.parts])
  }

  /** Registrations one after another, up to the first refusal. */
  function RegisteredAll<I(==)>(m: map<I, NodeParts>, copies: seq<Copy<I>>): Option<map<I, NodeParts>> {
    if copies == [] then Some(m) else
      match RegisteredAll(m, copies[..|copies| - 1])
      case None => None
      case Some(k) => Registered(k, copies[|copies| - 1])
  }

  lemma {:induction false} RefusedStays<I>(m: map<I, NodeParts>, copies: seq<Copy<I>>, i: nat)
    requires i <= |copies| && RegisteredAll(m, copies[..i]) == None
    ensures RegisteredAll(m, copies) == None
    decreases |copies|
  {
    if i < |copies| {
      assert copies[..|copies| - 1][..i] == copies[..i];
      RefusedStays(m, copies[..|copies| - 1], i);
    } else {
      assert copies[..i] == copies;
    }
  }

  lemma MergedCovers<I(!new)>(m: map<I, NodeParts>, k: map<I, NodeParts>, s: set<Copy<I>>, id: I)
    requires Merged(m, s) && Merged(k, s) && id in m
    ensures id in k && Covers(k[id], m[id])
  {
    var c :| c in s && c.id == id;
    assert Covers(m[c.id], c.parts) && Covers(k[c.id], c.parts);
  }

  /** The kept definitions are determined by the copies they merge. */
  lemma MergedIsUnique<I(!new)>(m: map<I, NodeParts>, k: map<I, NodeParts>, s: set<Copy<I>>)
    requires Merged(m, s) && Merged(k, s)
    ensures m == k
  {
    hide Merged;
    forall id | id in m
      ensures id in k && m[id] == k[id]
    {
      MergedCovers(m, k, s, id);
      MergedCovers(k, m, s, id);
    }
    forall id | id in k
      ensures id in m
    {
      MergedCovers(k, m, s, id);
    }
  }

  method RegisterNode<I(==, !new)>(m: map<I, NodeParts>, id: I, parts: NodeParts, ghost seen: set<Copy<I>>)
    returns (ok: bool, m': map<I, NodeParts>)
    requires Merged(m, seen)
    ensures ok <==> CopiesAgree(seen + {Copy(id, parts)})
    ensures ok ==> Merged(m', seen + {Copy(id, parts)})
    ensures Registered(m, Copy(id, parts)) == if ok then Some(m') else None
  {
    hide Merged, CopiesAgree;
    m' := m;
    if id in m && !PartsAgree(m[id], parts) {
      ConflictHasWitness(m, seen, Copy(id, parts));
      return false, m';
    }
    CopyMerged(m, seen, Copy(id, parts));
    m' := m[id := if id in m then Merge(m[id], parts) else parts];
    MergedAgree(m', seen + {Copy(id, parts)});
    ok := true;
  }

  /**
   Registering a list of copies one by one succeeds exactly when every two of them agree;
   the right-hand side does not mention the order of the list.
   */
  method RegisterCopies<I(==, !new)>(m: map<I, NodeParts>, copies: seq<Copy<I>>, ghost seen: set<Copy<I>>)
    returns (ok: bool, m': map<I, NodeParts>)
    requires Merged(m, seen)
    ensures ok <==> CopiesAgree(seen + Elements(copies))
    ensures ok ==> Merged(m', seen + Elements(copies))
    ensures RegisteredAll(m, copies) == if ok then Some(m') else None
  {
    hide Merged, CopiesAgree, Registered;
    m' := m;
    assert seen + Elements(copies[..0]) == seen;
    for i := 0 to |copies|
      invariant Merged(m', seen + Elements(copies[..i]))
      invariant RegisteredAll(m, copies[..i]) == Some(m')
    {
      var c := copies[i];
      assert copies[..i + 1][..i] == copies[..i];
      assert copies[..i + 1] == copies[..i] + [c];
      assert seen + Elements(copies[..i + 1]) == seen + Elements(copies[..i]) + {c};
      ok, m' := RegisterNode(m', c.id, c.parts, seen + Elements(copies[..i]));
      if !ok {
        CopiesAgreeShrinks(seen + Elements(copies[..i + 1]), seen + Elements(copies));
        RefusedStays(m, copies, i + 1);
        return;
      }
    }
    assert copies[..|copies|] == copies;
    MergedAgree(m', seen + Elements(copies));
    ok := true;
  }

  lemma {:induction false} RegisteredAllMerges<I(!new)>(m: map<I, NodeParts>, copies: seq<Copy<I>>, seen: set<Copy<I>>)
    requires Merged(m, seen)
    ensures RegisteredAll(m, copies).Some? <==> CopiesAgree(seen + Elements(copies))
    ensures RegisteredAll(m, copies).Some? ==> Merged(RegisteredAll(m, copies).value, seen + Elements(copies))
  {
    hide Merged, CopiesAgree;
    if copies == [] {
      assert seen + Elements(copies) == seen;
      MergedAgree(m, seen);
    } else {
      var front, c := copies[..|copies| - 1], copies[|copies| - 1];
      RegisteredAllMerges(m, front, seen);
      assert copies == front + [c];
      assert seen + Elements(copies) == seen + Elements(front) + {c};
      CopiesAgreeShrinks(seen + Elements(front), seen + Elements(copies));
      if RegisteredAll(m, front).Some? {
        var k := RegisteredAll(m, front).value;
        if c.id in k && !PartsAgree(k[c.id], c.parts) {
          ConflictHasWitness(k, seen + Elements(front), c);
        } else {
          CopyMerged(k, seen + Elements(front), c);
          MergedAgree(Registered(k, c).value, seen + Elements(copies));
        }
      }
    }
  }

  /** Registering the same copies in any other order ends alike: both runs are refused, or both keep the same definitions. */
  lemma RegistrationIgnoresOrder<I(!new)>(m: map<I, NodeParts>, s: seq<Copy<I>>, t: seq<Copy<I>>, seen: set<Copy<I>>)
    requires Merged(m, seen) && multiset(s) == multiset(t)
    ensures RegisteredAll(m, s) == RegisteredAll(m, t)
  {
    hide Merged, CopiesAgree, RegisteredAll;
    forall c
      ensures c in s <==> c in t
    {
      assert c in s <==> c in multiset(s);
      assert c in t <==> c in multiset(t);
    }
    assert Elements(s) == Elements(t);
    RegisteredAllMerges(m, s, seen);
    RegisteredAllMerges(m, t, seen);
    if RegisteredAll(m, s).Some? {
      MergedIsUnique(RegisteredAll(m, s).value, RegisteredAll(m, t).value, seen + Elements(s));
    }
  }
}
