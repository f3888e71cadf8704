/**
 * The code tables that the recursive code generators write: the path from
 * the root to a leaf, '0' for every step left and '1' for every step right,
 * is that leaf's code.
 */
module Codes {
  import opened HuffmanTree
  import opened Bits

  /** The symbol-to-code table produced from `t` when the walk starts with `prefix`. */
  function CodeMap<S>(t: Tree<S>, prefix: string): map<S, string>
  {
    match t
    case Leaf(s, _) => map[s := prefix]
    case Node(_, l, r) => CodeMap(l, prefix + "0") + CodeMap(r, prefix + "1")
  }

  /** The code-to-symbol table produced by the same walk. */
  function ReverseMap<S>(t: Tree<S>, prefix: string): map<string, S>
  {
    match t
    case Leaf(s, _) => map[prefix := s]
    case Node(_, l, r) => ReverseMap(l, prefix + "0") + ReverseMap(r, prefix + "1")
  }

  /** Writing the table of a subtree, then the next, into a table. */
  lemma UnionAssoc<K, V>(a: map<K, V>, b: map<K, V>, c: map<K, V>)
    ensures a + b + c == a + (b + c)
  {
  }

  /** Writing a subtree's table into a fresh table. */
  lemma EmptyUnion<K, V>(m: map<K, V>)
    ensures map[] + m == m
  {
  }

  /** One `put` into a table. */
  lemma PutIsUnion<K, V>(m: map<K, V>, k: K, v: V)
    ensures m[k := v] == m + map[k := v]
  {
  }

  /** No code is a prefix of another. */
  ghost predicate PrefixFree(codes: set<string>)
  {
    forall p, q :: p in codes && q in codes && p != q ==> !(p <= q)
  }

  /** `rev` undoes `codes` and `codes` undoes `rev`. */
  ghost predicate Inverse<S>(codes: map<S, string>, rev: map<string, S>)
  {
    (forall s :: s in codes ==> codes[s] in rev && rev[codes[s]] == s) &&
    (forall c :: c in rev ==> rev[c] in codes && codes[rev[c]] == c)
  }

  /** The bit string for `syms`: each symbol's code, in order. */
  function Encode<S>(codes: map<S, string>, syms: seq<S>): string
    requires forall i :: 0 <= i < |syms| ==> syms[i] in codes
  {
    if syms == [] then "" else Encode(codes, syms[..|syms| - 1]) + codes[syms[|syms| - 1]]
  }

  /** `x` has a code exactly when it labels a leaf. */
  lemma {:induction false} CodeMapKey<S>(t: Tree<S>, prefix: string, x: S)
    ensures x in CodeMap(t, prefix) <==> x in LeafSyms(t)
  {
    match t
    case Leaf(_, _) =>
    case Node(_, l, r) =>
      CodeMapKey(l, prefix + "0", x);
      CodeMapKey(r, prefix + "1", x);
  }

  /** The table has one entry per leaf symbol. */
  lemma CodeMapKeys<S>(t: Tree<S>, prefix: string)
    ensures forall x :: x in CodeMap(t, prefix) <==> x in LeafSyms(t)
  {
    forall x {
      CodeMapKey(t, prefix, x);
    }
  }

  /** Every code extends the starting prefix, strictly below an internal node, and is a bit string if the prefix is. */
  lemma {:induction false} CodesExtendPrefix<S>(t: Tree<S>, prefix: string)
    ensures forall c :: c in ReverseMap(t, prefix) ==> prefix <= c
    ensures t.Node? ==> forall c :: c in ReverseMap(t, prefix) ==> |c| > |prefix|
    ensures IsBinary(prefix) ==> forall c :: c in ReverseMap(t, prefix) ==> IsBinary(c)
    ensures forall s :: s in CodeMap(t, prefix) ==> CodeMap(t, prefix)[s] in ReverseMap(t, prefix)
  {
    match t
    case Leaf(_, _) =>
    case Node(_, l, r) =>
      CodesExtendPrefix(l, prefix + "0");
      CodesExtendPrefix(r, prefix + "1");
      CodeMapKeys(l, prefix + "0");
      CodeMapKeys(r, prefix + "1");
      forall c | c in ReverseMap(t, prefix) ensures prefix <= c && |c| > |prefix| {
        assert c in ReverseMap(l, prefix + "0") || c in ReverseMap(r, prefix + "1");
      }
  }

  /** A code under the left child and a code under the right child differ right after the prefix. */
  lemma SidesDiffer(prefix: string, a: string, b: string)
    requires prefix + "0" <= a && prefix + "1" <= b
    ensures !(a <= b) && !(b <= a) && a != b
  {
    assert a[|prefix|] == '0' && b[|prefix|] == '1';
  }

  /** The reverse table's keys are prefix-free, for every tree. */
  lemma {:induction false} ReverseMapPrefixFree<S>(t: Tree<S>, prefix: string)
    ensures PrefixFree(ReverseMap(t, prefix).Keys)
  {
    match t
    case Leaf(_, _) =>
    case Node(_, l, r) =>
      var left, right := ReverseMap(l, prefix + "0"), ReverseMap(r, prefix + "1");
      ReverseMapPrefixFree(l, prefix + "0");
      ReverseMapPrefixFree(r, prefix + "1");
      CodesExtendPrefix(l, prefix + "0");
      CodesExtendPrefix(r, prefix + "1");
      forall a, b | a in left && b in right ensures !(a <= b) && !(b <= a) && a != b {
        SidesDiffer(prefix, a, b);
      }
  }

  /** Codes under the left child are never codes under the right child. */
  lemma SidesDisjoint<S>(l: Tree<S>, r: Tree<S>, prefix: string)
    ensures forall a :: a in ReverseMap(l, prefix + "0") ==> a !in ReverseMap(r, prefix + "1")
  {
    CodesExtendPrefix(l, prefix + "0");
    CodesExtendPrefix(r, prefix + "1");
    forall a, b | a in ReverseMap(l, prefix + "0") && b in ReverseMap(r, prefix + "1") ensures a != b {
      SidesDiffer(prefix, a, b);
    }
  }

  lemma {:induction false} DecodesWhatItEncodes<S>(t: Tree<S>, prefix: string)
    requires Distinct(t)
    ensures forall s :: s in CodeMap(t, prefix) ==>
      CodeMap(t, prefix)[s] in ReverseMap(t, prefix) && ReverseMap(t, prefix)[CodeMap(t, prefix)[s]] == s
  {
    match t
    case Leaf(_, _) =>
    case Node(_, l, r) =>
      DistinctChildren(t);
      var p0, p1 := prefix + "0", prefix + "1";
      DecodesWhatItEncodes(l, p0);
      DecodesWhatItEncodes(r, p1);
      CodeMapKeys(l, p0);
      CodeMapKeys(r, p1);
      SidesDisjoint(l, r, prefix);
      var cl, cr, rl, rr := CodeMap(l, p0), CodeMap(r, p1), ReverseMap(l, p0), ReverseMap(r, p1);
      forall s | s in cl + cr ensures (cl + cr)[s] in rl + rr && (rl + rr)[(cl + cr)[s]] == s {
        if s in cr {
          assert (cl + cr)[s] == cr[s];
        } else {
          assert (cl + cr)[s] == cl[s] && cl[s] !in rr;
        }
      }
  }

  lemma {:induction false} EncodesWhatItDecodes<S>(t: Tree<S>, prefix: string)
    requires Distinct(t)
    ensures forall c :: c in ReverseMap(t, prefix) ==>
      ReverseMap(t, prefix)[c] in CodeMap(t, prefix) && CodeMap(t, prefix)[ReverseMap(t, prefix)[c]] == c
  {
    match t
    case Leaf(_, _) =>
    case Node(_, l, r) =>
      DistinctChildren(t);
      var p0, p1 := prefix + "0", prefix + "1";
      EncodesWhatItDecodes(l, p0);
      EncodesWhatItDecodes(r, p1);
      CodeMapKeys(l, p0);
      CodeMapKeys(r, p1);
      SidesDisjoint(l, r, prefix);
      var cl, cr, rl, rr := CodeMap(l, p0), CodeMap(r, p1), ReverseMap(l, p0), ReverseMap(r, p1);
      forall c | c in rl + rr ensures (rl + rr)[c] in cl + cr && (cl + cr)[(rl + rr)[c]] == c {
        if c in rr {
          assert (rl + rr)[c] == rr[c];
        } else {
          var x := rl[c];
          assert (rl + rr)[c] == x && x in cl;
          CodeMapKey(l, p0, x);
          CodeMapKey(r, p1, x);
        }
      }
  }

  /** With distinct leaf symbols the two tables are mutual inverses. */
  lemma TablesInverse<S>(t: Tree<S>, prefix: string)
    requires Distinct(t)
    ensures Inverse(CodeMap(t, prefix), ReverseMap(t, prefix))
  {
    DecodesWhatItEncodes(t, prefix);
    EncodesWhatItDecodes(t, prefix);
  }

  lemma {:induction false} EncodeAppend<S>(codes: map<S, string>, a: seq<S>, b: seq<S>)
    requires forall i :: 0 <= i < |a| ==> a[i] in codes
    requires forall i :: 0 <= i < |b| ==> b[i] in codes
    ensures Encode(codes, a + b) == Encode(codes, a) + Encode(codes, b)
    decreases |b|
  {
    if b == [] {
      assert a + b == a;
    } else {
      var b' := b[..|b| - 1];
      assert (a + b)[..|a + b| - 1] == a + b';
      EncodeAppend(codes, a, b');
    }
  }

  lemma {:induction false} EncodeBinary<S>(codes: map<S, string>, syms: seq<S>)
    requires forall i :: 0 <= i < |syms| ==> syms[i] in codes && IsBinary(codes[syms[i]])
    ensures IsBinary(Encode(codes, syms))
    decreases |syms|
  {
    if syms != [] {
      EncodeBinary(codes, syms[..|syms| - 1]);
    }
  }

}
