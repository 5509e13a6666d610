/**
 * What the accessors promise, proved about the functions of module Tree:
 * how `get`, `in` and `d[key]` agree, read-after-write and frame properties
 * of `d[key] = v`, and what `setdefault` returns and changes.
 */
module TreeFacts {
  import opened Tree

  // ---------------------------------------------------------------- reading

  /** A walk down `a + b` is a walk down `a` followed by a walk down `b`. */
  lemma {:induction false} WalkAppend(n: Node, a: seq<string>, b: seq<string>)
    ensures Walk(n, a + b) ==
      match Walk(n, a)
      case Found(x) => Walk(x, b)
      case Missing => Missing
      case NotMapping(p) => NotMapping(p + |b|)
    decreases |a|
  {
    if a == [] {
      assert a + b == b;
    } else {
      assert (a + b)[0] == a[0];
      assert (a + b)[1..] == a[1..] + b;
      match n
      case Map(m) =>
        if a[0] in m {
          WalkAppend(m[a[0]], a[1..], b);
        }
      case _ =>
    }
  }

  /** Step `i` of the walk succeeds: the first `i` keys lead to a mapping holding `keys[i]`. */
  ghost predicate StepSucceeds(n: Node, keys: seq<string>, i: nat)
    requires i < |keys|
  {
    var w := Walk(n, keys[..i]);
    w.Found? && w.value.Map? && keys[i] in w.value.entries
  }

  /** A path exists exactly when every step of its walk finds a mapping holding the next key. */
  lemma ContainsIffEveryStep(n: Node, keys: seq<string>)
    ensures Contains(n, keys) <==> forall i :: 0 <= i < |keys| ==> StepSucceeds(n, keys, i)
  {
    if Contains(n, keys) {
      forall i | 0 <= i < |keys|
        ensures StepSucceeds(n, keys, i)
      {
        assert keys[..i] + keys[i..] == keys;
        WalkAppend(n, keys[..i], keys[i..]);
        assert keys[i..][0] == keys[i];
      }
    }
    if keys != [] && forall i :: 0 <= i < |keys| ==> StepSucceeds(n, keys, i) {
      var last := |keys| - 1;
      assert StepSucceeds(n, keys, last);
      assert keys[..last] + [keys[last]] == keys;
      WalkAppend(n, keys[..last], [keys[last]]);
    }
  }

  /**
   * When step `i` meets a non-mapping or a mapping without `keys[i]`, `get`
   * returns its default and `in` is false; `d[key]` raises `KeyError` for the
   * non-mapping and gives `None` for the absent key.
   */
  lemma FailedStep(n: Node, keys: seq<string>, i: nat, default: Node)
    requires i < |keys|
    requires Walk(n, keys[..i]).Found?
    requires !StepSucceeds(n, keys, i)
    ensures Get(n, keys, default) == default
    ensures !Contains(n, keys)
    ensures !Walk(n, keys[..i]).value.Map? ==> GetItem(n, keys) == Err(KeyError)
    ensures Walk(n, keys[..i]).value.Map? ==> GetItem(n, keys) == Ok(Null)
  {
    assert keys[..i] + keys[i..] == keys;
    WalkAppend(n, keys[..i], keys[i..]);
    assert keys[i..][0] == keys[i];
  }

  /** What a walk finds lies inside the tree it started from. */
  lemma {:induction false} FoundOccurs(n: Node, keys: seq<string>)
    requires Walk(n, keys).Found?
    ensures Occurs(Walk(n, keys).value, n)
    decreases |keys|
  {
    if keys != [] {
      var m := n.entries;
      FoundOccurs(m[keys[0]], keys[1..]);
      assert keys[0] in m && Occurs(Walk(n, keys).value, m[keys[0]]);
    }
  }

  /**
   * `key in d` is true exactly when `d.get(key, sentinel)` is not the
   * sentinel, for any sentinel that does not occur in the tree.
   */
  lemma ContainsIffGetNotSentinel(n: Node, keys: seq<string>, sentinel: Node)
    requires !Occurs(sentinel, n)
    ensures Contains(n, keys) <==> Get(n, keys, sentinel) != sentinel
  {
    if Contains(n, keys) {
      FoundOccurs(n, keys);
    }
  }

  /**
   * `d[key]` agrees with `d.get(key)` (default `None`) except that it raises
   * `KeyError` where the walk meets a non-mapping; `get` never raises.
   */
  lemma GetItemAgreesWithGet(n: Node, keys: seq<string>)
    ensures GetItem(n, keys).Err? <==> Walk(n, keys).NotMapping?
    ensures GetItem(n, keys).Ok? ==> GetItem(n, keys).value == Get(n, keys, Null)
    ensures GetItem(n, keys).Err? ==> GetItem(n, keys).error == KeyError
  {
  }

  // ---------------------------------------------------------------- writing

  /** `d[key] = v` fails exactly when reading the path would meet a non-mapping. */
  lemma {:induction false} PutFailsIffNotMapping(n: Node, keys: seq<string>, v: Node)
    requires |keys| >= 1
    ensures Put(n, keys, v).Err? <==> Walk(n, keys).NotMapping?
    decreases |keys|
  {
    if n.Map? && |keys| > 1 {
      var child := ChildOrEmpty(n.entries, keys[0]);
      PutFailsIffNotMapping(child, keys[1..], v);
    }
  }

  /**
   * Read-after-write: after a successful `d[key] = v`, the path holds `v`,
   * and every proper prefix of it, missing before or not, holds a mapping.
   */
  lemma {:induction false} ReadAfterPut(n: Node, keys: seq<string>, v: Node)
    requires |keys| >= 1
    requires Put(n, keys, v).Ok?
    ensures Walk(Put(n, keys, v).value, keys) == Found(v)
    ensures forall i :: 0 <= i < |keys| ==>
      Walk(Put(n, keys, v).value, keys[..i]).Found? &&
      Walk(Put(n, keys, v).value, keys[..i]).value.Map?
    decreases |keys|
  {
    var after := Put(n, keys, v).value;
    if |keys| > 1 {
      var child := ChildOrEmpty(n.entries, keys[0]);
      ReadAfterPut(child, keys[1..], v);
      var c := Put(child, keys[1..], v).value;
      assert after.entries[keys[0]] == c;
      forall i | 1 <= i < |keys|
        ensures Walk(after, keys[..i]) == Walk(c, keys[1..][..i - 1])
      {
        assert keys[..i][0] == keys[0];
        assert keys[..i][1..] == keys[1..][..i - 1];
      }
    }
    assert keys[..0] == [];
  }

  /**
   * Frame: `d[p] = v` leaves every path `q` alone when neither of `p`, `q` is
   * a prefix of the other; the walk along `q` ends exactly as before.
   */
  lemma {:induction false} PutFrame(n: Node, p: seq<string>, q: seq<string>, v: Node)
    requires |p| >= 1
    requires Put(n, p, v).Ok?
    requires !(p <= q) && !(q <= p)
    ensures Walk(Put(n, p, v).value, q) == Walk(n, q)
    decreases |p|
  {
    var m := n.entries;
    var after := Put(n, p, v).value;
    if q[0] != p[0] {
      assert q[0] in after.entries <==> q[0] in m;
      assert q[0] in m ==> after.entries[q[0]] == m[q[0]];
    } else {
      PrefixAfterHead(p, q);
      PrefixAfterHead(q, p);
      var child := ChildOrEmpty(m, p[0]);
      PutFrame(child, p[1..], q[1..], v);
    }
  }

  /** Below a shared first key, one path is a prefix of another exactly when their tails are. */
  lemma PrefixAfterHead(p: seq<string>, q: seq<string>)
    requires |p| >= 1 && |q| >= 1 && p[0] == q[0]
    ensures p <= q <==> p[1..] <= q[1..]
  {
  }

  /** Last write wins: writing `w` over a freshly written `v` is writing `w` alone. */
  lemma {:induction false} PutTwice(n: Node, keys: seq<string>, v: Node, w: Node)
    requires |keys| >= 1
    requires Put(n, keys, v).Ok?
    ensures Put(Put(n, keys, v).value, keys, w) == Put(n, keys, w)
    decreases |keys|
  {
    var m := n.entries;
    var after := Put(n, keys, v).value;
    if |keys| == 1 {
      assert m[keys[0] := v][keys[0] := w] == m[keys[0] := w];
    } else {
      var child := ChildOrEmpty(m, keys[0]);
      PutTwice(child, keys[1..], v, w);
      PutFailsIffNotMapping(child, keys[1..], w);
      PutFailsIffNotMapping(child, keys[1..], v);
      var c := Put(child, keys[1..], v).value;
      assert ChildOrEmpty(after.entries, keys[0]) == c;
      assert m[keys[0] := c][keys[0] := Put(c, keys[1..], w).value]
          == m[keys[0] := Put(child, keys[1..], w).value];
    }
  }

  // ------------------------------------------------------------- setdefault

  /** On a path that already exists, `setdefault` returns the stored value and changes nothing. */
  lemma {:induction false} SetDefaultFound(n: Node, keys: seq<string>, v: Node)
    requires |keys| >= 1
    requires Contains(n, keys)
    ensures SetDefault(n, keys, v) == Ok((n, Get(n, keys, v)))
    decreases |keys|
  {
    var m := n.entries;
    assert Walk(n, keys) == Walk(m[keys[0]], keys[1..]);
    if |keys| > 1 {
      SetDefaultFound(m[keys[0]], keys[1..], v);
      assert m[keys[0] := m[keys[0]]] == m;
    } else {
      assert keys[1..] == [];
    }
  }

  /** On a path whose walk stops at a missing key, `setdefault` is `d[key] = v` returning `v`. */
  lemma {:induction false} SetDefaultMissing(n: Node, keys: seq<string>, v: Node)
    requires |keys| >= 1
    requires Walk(n, keys) == Missing
    ensures Put(n, keys, v).Ok?
    ensures SetDefault(n, keys, v) == Ok((Put(n, keys, v).value, v))
    decreases |keys|
  {
    PutFailsIffNotMapping(n, keys, v);
    var m := n.entries;
    if |keys| > 1 {
      var child := ChildOrEmpty(m, keys[0]);
      assert Walk(child, keys[1..]) == Missing;
      SetDefaultMissing(child, keys[1..], v);
    }
  }

  /**
   * `setdefault` raises where `d[key] = v` would: `AttributeError` when the
   * last container is not a mapping, `TypeError` when an earlier one is not.
   */
  lemma {:induction false} SetDefaultNotMapping(n: Node, keys: seq<string>, v: Node)
    requires |keys| >= 1
    requires Walk(n, keys).NotMapping?
    ensures SetDefault(n, keys, v) ==
      Err(if Walk(n, keys).pending == 1 then AttributeError else TypeError)
    decreases |keys|
  {
    if n.Map? {
      SetDefaultNotMapping(n.entries[keys[0]], keys[1..], v);
    }
  }

  /**
   * A second `setdefault` on the same path returns what the first returned
   * and changes nothing, whatever default it is given.
   */
  lemma SetDefaultTwice(n: Node, keys: seq<string>, v: Node, v2: Node)
    requires |keys| >= 1
    requires SetDefault(n, keys, v).Ok?
    ensures var (after, first) := SetDefault(n, keys, v).value;
      SetDefault(after, keys, v2) == Ok((after, first))
  {
    match Walk(n, keys)
    case Found(w) =>
      SetDefaultFound(n, keys, v);
      SetDefaultFound(n, keys, v2);
    case Missing =>
      SetDefaultMissing(n, keys, v);
      ReadAfterPut(n, keys, v);
      SetDefaultFound(Put(n, keys, v).value, keys, v2);
    case NotMapping(_) =>
      SetDefaultNotMapping(n, keys, v);
  }

  // ----------------------------------------------------------------- update

  /**
   * After `update(other)`, a path whose first key is in `other` reads from
   * `other`'s value, and every other path reads as before.
   */
  lemma MergeWalk(m: map<string, Node>, other: map<string, Node>, q: seq<string>)
    requires |q| >= 1
    ensures q[0] in other ==> Walk(Map(Merge(m, other)), q) == Walk(other[q[0]], q[1..])
    ensures q[0] !in other ==> Walk(Map(Merge(m, other)), q) == Walk(Map(m), q)
  {
  }
}
