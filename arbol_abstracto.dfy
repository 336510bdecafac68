/**
  The abstract view of the book catalogue's binary search tree: a tree value,
  insertion by id (smaller ids to the left, equal or larger ids to the right,
  duplicates always stored) and the three depth-first traversals.
  The heap-based classes in module Bst are proved against these functions.
 */
module ArbolAbstracto {

  /** One catalogue entry: a book id (the ordering key) and its title. */
  datatype Entrada = Entrada(id: int, titulo: string)

  datatype Arbol = Vacio | Rama(izquierda: Arbol, entrada: Entrada, derecha: Arbol)

  /** Number of nodes. */
  function Tamano(a: Arbol): nat
  {
    match a
    case Vacio => 0
    case Rama(l, _, r) => Tamano(l) + 1 + Tamano(r)
  }

  /** The multiset of entries stored in the tree, one per node. */
  function Entradas(a: Arbol): multiset<Entrada>
  {
    match a
    case Vacio => multiset{}
    case Rama(l, e, r) => Entradas(l) + multiset{e} + Entradas(r)
  }

  /** Every id in the tree is strictly smaller than k. */
  predicate TodosMenores(a: Arbol, k: int)
  {
    match a
    case Vacio => true
    case Rama(l, e, r) => e.id < k && TodosMenores(l, k) && TodosMenores(r, k)
  }

  /** Every id in the tree is greater than or equal to k. */
  predicate TodosMayoresOIguales(a: Arbol, k: int)
  {
    match a
    case Vacio => true
    case Rama(l, e, r) => e.id >= k && TodosMayoresOIguales(l, k) && TodosMayoresOIguales(r, k)
  }

  /**
    The ordering invariant that insertion keeps: at every node, each id of the
    left subtree is strictly smaller than the node's id and each id of the
    right subtree is greater than or equal to it (equal ids go right).
   */
  predicate EsBst(a: Arbol)
  {
    match a
    case Vacio => true
    case Rama(l, e, r) =>
      EsBst(l) && EsBst(r) &&
      TodosMenores(l, e.id) && TodosMayoresOIguales(r, e.id)
  }

  /**
    Insertion as the recursive descent performs it: the new entry goes into the
    left subtree when its id is smaller than the node's id, and into the right
    subtree otherwise; it always becomes a new leaf.
   */
  function Insertar(a: Arbol, e: Entrada): Arbol
  {
    match a
    case Vacio => Rama(Vacio, e, Vacio)
    case Rama(l, x, d) =>
      if e.id < x.id then Rama(Insertar(l, e), x, d)
      else Rama(l, x, Insertar(d, e))
  }

  /** Insertion adds exactly one node holding exactly the new entry, even for an id already present. */
  lemma {:induction false} InsertarAgregaUnNodo(a: Arbol, e: Entrada)
    ensures Entradas(Insertar(a, e)) == Entradas(a) + multiset{e}
    ensures Tamano(Insertar(a, e)) == Tamano(a) + 1
  {
    match a
    case Vacio =>
    case Rama(l, x, d) =>
      if e.id < x.id {
        InsertarAgregaUnNodo(l, e);
        assert Insertar(a, e) == Rama(Insertar(l, e), x, d);
      } else {
        InsertarAgregaUnNodo(d, e);
        assert Insertar(a, e) == Rama(l, x, Insertar(d, e));
      }
  }

  /** The recursive bounds say exactly that every stored entry's id is below, or at least, k. */
  lemma {:induction false} CotasSonSobreEntradas(a: Arbol, k: int)
    ensures TodosMenores(a, k) <==> forall x | x in Entradas(a) :: x.id < k
    ensures TodosMayoresOIguales(a, k) <==> forall x | x in Entradas(a) :: x.id >= k
  {
    match a
    case Vacio =>
    case Rama(l, e, r) =>
      CotasSonSobreEntradas(l, k);
      CotasSonSobreEntradas(r, k);
      assert e in Entradas(a);
      assert forall x | x in Entradas(a) :: x in Entradas(l) || x == e || x in Entradas(r);
      assert forall x | x in Entradas(l) :: x in Entradas(a);
      assert forall x | x in Entradas(r) :: x in Entradas(a);
  }

  /** Inserting an entry below (or at least) k keeps a bound on every id. */
  lemma {:induction false} InsertarConservaCotas(a: Arbol, e: Entrada, k: int)
    ensures TodosMenores(a, k) && e.id < k ==> TodosMenores(Insertar(a, e), k)
    ensures TodosMayoresOIguales(a, k) && e.id >= k ==> TodosMayoresOIguales(Insertar(a, e), k)
  {
    match a
    case Vacio =>
    case Rama(l, x, d) =>
      if e.id < x.id {
        InsertarConservaCotas(l, e, k);
      } else {
        InsertarConservaCotas(d, e, k);
      }
  }

  /** Insertion keeps the ordering invariant. */
  lemma {:induction false} InsertarPreservaBst(a: Arbol, e: Entrada)
    requires EsBst(a)
    ensures EsBst(Insertar(a, e))
  {
    match a
    case Vacio =>
    case Rama(l, x, d) =>
      if e.id < x.id {
        InsertarPreservaBst(l, e);
        InsertarConservaCotas(l, e, x.id);
      } else {
        InsertarPreservaBst(d, e);
        InsertarConservaCotas(d, e, x.id);
      }
  }

  /** Left subtree, node, right subtree. */
  function InOrder(a: Arbol): seq<Entrada>
  {
    match a
    case Vacio => []
    case Rama(l, e, r) => InOrder(l) + [e] + InOrder(r)
  }

  /** Node, left subtree, right subtree. */
  function PreOrder(a: Arbol): (s: seq<Entrada>)
    ensures a.Rama? ==> |s| > 0 && s[0] == a.entrada
  {
    match a
    case Vacio => []
    case Rama(l, e, r) => [e] + PreOrder(l) + PreOrder(r)
  }

  /** Left subtree, right subtree, node. */
  function PostOrder(a: Arbol): (s: seq<Entrada>)
    ensures a.Rama? ==> |s| > 0 && s[|s| - 1] == a.entrada
  {
    match a
    case Vacio => []
    case Rama(l, e, r) => PostOrder(l) + PostOrder(r) + [e]
  }

  /** The ids of a traversal, in emission order. */
  function Ids(s: seq<Entrada>): (ids: seq<int>)
    ensures |ids| == |s|
    ensures forall i | 0 <= i < |s| :: ids[i] == s[i].id
  {
    if s == [] then [] else [s[0].id] + Ids(s[1..])
  }

  /** Ids in non-decreasing order. */
  ghost predicate Ordenado(s: seq<Entrada>)
  {
    forall i, j | 0 <= i < j < |s| :: s[i].id <= s[j].id
  }

  /**
    Inserting a sequence of entries one after another, in order: the effect of
    any series of insertions, used to state properties of the program.
   */
  ghost function InsertarTodos(a: Arbol, s: seq<Entrada>): Arbol
    decreases |s|
  {
    if s == [] then a else InsertarTodos(Insertar(a, s[0]), s[1..])
  }

  // ---------------------------------------------------------------------------
  // Traversal properties

  /** The empty tree yields nothing, and only the empty tree does, in every order. */
  lemma RecorridosVacios(a: Arbol)
    ensures InOrder(a) == [] <==> a == Vacio
    ensures PreOrder(a) == [] <==> a == Vacio
    ensures PostOrder(a) == [] <==> a == Vacio
  {
  }

  /** In-order emits every node's entry exactly once. */
  lemma {:induction false} ContenidoInOrder(a: Arbol)
    ensures multiset(InOrder(a)) == Entradas(a)
    ensures |InOrder(a)| == Tamano(a)
  {
    match a
    case Vacio =>
    case Rama(l, e, r) =>
      ContenidoInOrder(l);
      ContenidoInOrder(r);
      var sl, sr := InOrder(l), InOrder(r);
      assert InOrder(a) == sl + [e] + sr;
      assert multiset(sl + [e] + sr) == multiset(sl) + multiset{e} + multiset(sr);
  }

  /** Pre-order emits every node's entry exactly once. */
  lemma {:induction false} ContenidoPreOrder(a: Arbol)
    ensures multiset(PreOrder(a)) == Entradas(a)
    ensures |PreOrder(a)| == Tamano(a)
  {
    match a
    case Vacio =>
    case Rama(l, e, r) =>
      ContenidoPreOrder(l);
      ContenidoPreOrder(r);
      var sl, sr := PreOrder(l), PreOrder(r);
      assert PreOrder(a) == [e] + sl + sr;
      assert multiset([e] + sl + sr) == multiset{e} + multiset(sl) + multiset(sr);
  }

  /** Post-order emits every node's entry exactly once. */
  lemma {:induction false} ContenidoPostOrder(a: Arbol)
    ensures multiset(PostOrder(a)) == Entradas(a)
    ensures |PostOrder(a)| == Tamano(a)
  {
    match a
    case Vacio =>
    case Rama(l, e, r) =>
      ContenidoPostOrder(l);
      ContenidoPostOrder(r);
      var sl, sr := PostOrder(l), PostOrder(r);
      assert PostOrder(a) == sl + sr + [e];
      assert multiset(sl + sr + [e]) == multiset(sl) + multiset(sr) + multiset{e};
  }

  /** The three traversals are permutations of one another, of length the node count. */
  lemma RecorridosSonPermutaciones(a: Arbol)
    ensures multiset(PreOrder(a)) == multiset(InOrder(a)) == multiset(PostOrder(a)) == Entradas(a)
    ensures |PreOrder(a)| == |InOrder(a)| == |PostOrder(a)| == Tamano(a)
  {
    ContenidoInOrder(a);
    ContenidoPreOrder(a);
    ContenidoPostOrder(a);
  }

  lemma {:induction false} ConcatenacionOrdenada(s: seq<Entrada>, e: Entrada, t: seq<Entrada>)
    requires Ordenado(s) && Ordenado(t)
    requires forall x | x in s :: x.id < e.id
    requires forall x | x in t :: x.id >= e.id
    ensures Ordenado(s + [e] + t)
  {
    var u := s + [e] + t;
    forall i, j | 0 <= i < j < |u| ensures u[i].id <= u[j].id {
      if j < |s| {
        assert u[i] == s[i] && u[j] == s[j];
      } else if i >= |s| + 1 {
        assert u[i] == t[i - |s| - 1] && u[j] == t[j - |s| - 1];
      } else if i < |s| {
        assert u[i] in s;
        if j > |s| {
          assert u[j] in t;
        }
      } else {
        assert u[j] in t;
      }
    }
  }

  /** On a search tree the in-order traversal lists the ids in non-decreasing order. */
  lemma {:induction false} InOrderOrdenado(a: Arbol)
    requires EsBst(a)
    ensures Ordenado(InOrder(a))
  {
    match a
    case Vacio =>
    case Rama(l, e, r) =>
      InOrderOrdenado(l);
      InOrderOrdenado(r);
      ContenidoInOrder(l);
      ContenidoInOrder(r);
      CotasSonSobreEntradas(l, e.id);
      CotasSonSobreEntradas(r, e.id);
      forall x | x in InOrder(l) ensures x.id < e.id {
        assert x in multiset(InOrder(l));
      }
      forall x | x in InOrder(r) ensures x.id >= e.id {
        assert x in multiset(InOrder(r));
      }
      ConcatenacionOrdenada(InOrder(l), e, InOrder(r));
  }

  /** Every tree that insertions build from a search tree is a search tree. */
  lemma {:induction false} InsertarTodosEsBst(a: Arbol, s: seq<Entrada>)
    requires EsBst(a)
    ensures EsBst(InsertarTodos(a, s))
    decreases |s|
  {
    if s != [] {
      var a' := Insertar(a, s[0]);
      InsertarPreservaBst(a, s[0]);
      InsertarTodosEsBst(a', s[1..]);
    }
  }

  /** Inserting a sequence adds exactly its entries, duplicates included. */
  lemma {:induction false} InsertarTodosEntradas(a: Arbol, s: seq<Entrada>)
    ensures Entradas(InsertarTodos(a, s)) == Entradas(a) + multiset(s)
    decreases |s|
  {
    if s != [] {
      var a' := Insertar(a, s[0]);
      InsertarAgregaUnNodo(a, s[0]);
      assert s == [s[0]] + s[1..];
      calc {
        Entradas(InsertarTodos(a, s));
        Entradas(InsertarTodos(a', s[1..]));
        { InsertarTodosEntradas(a', s[1..]); }
        Entradas(a') + multiset(s[1..]);
        (Entradas(a) + multiset{s[0]}) + multiset(s[1..]);
        Entradas(a) + (multiset{s[0]} + multiset(s[1..]));
        Entradas(a) + multiset(s);
      }
    }
  }

  // ---------------------------------------------------------------------------
  // Rebuilding a tree from its pre-order traversal

  lemma {:induction false} InsertarTodosConcatenados(a: Arbol, s: seq<Entrada>, t: seq<Entrada>)
    ensures InsertarTodos(a, s + t) == InsertarTodos(InsertarTodos(a, s), t)
    decreases |s|
  {
    if s != [] {
      var a' := Insertar(a, s[0]);
      assert (s + t)[0] == s[0];
      assert (s + t)[1..] == s[1..] + t;
      assert InsertarTodos(a, s + t) == InsertarTodos(a', s[1..] + t);
      assert InsertarTodos(a, s) == InsertarTodos(a', s[1..]);
      InsertarTodosConcatenados(a', s[1..], t);
    } else {
      assert s + t == t;
    }
  }

  /** Entries smaller than the root all land in the left subtree. */
  lemma {:induction false} InsertarTodosIzquierda(l: Arbol, e: Entrada, r: Arbol, s: seq<Entrada>)
    requires forall x | x in s :: x.id < e.id
    ensures InsertarTodos(Rama(l, e, r), s) == Rama(InsertarTodos(l, s), e, r)
    decreases |s|
  {
    if s != [] {
      assert s[0] in s;
      InsertarTodosIzquierda(Insertar(l, s[0]), e, r, s[1..]);
    }
  }

  /** Entries with ids at least the root's all land in the right subtree. */
  lemma {:induction false} InsertarTodosDerecha(l: Arbol, e: Entrada, r: Arbol, s: seq<Entrada>)
    requires forall x | x in s :: x.id >= e.id
    ensures InsertarTodos(Rama(l, e, r), s) == Rama(l, e, InsertarTodos(r, s))
    decreases |s|
  {
    if s != [] {
      assert s[0] in s;
      InsertarTodosDerecha(l, e, Insertar(r, s[0]), s[1..]);
    }
  }

  lemma PreOrderAcotado(a: Arbol, k: int)
    ensures TodosMenores(a, k) ==> forall x | x in PreOrder(a) :: x.id < k
    ensures TodosMayoresOIguales(a, k) ==> forall x | x in PreOrder(a) :: x.id >= k
  {
    ContenidoPreOrder(a);
    CotasSonSobreEntradas(a, k);
    forall x | x in PreOrder(a) ensures x in Entradas(a) {
      assert x in multiset(PreOrder(a));
    }
  }

  /**
    One step of the rebuild: replaying a root followed by sequences that
    rebuild its two subtrees (all smaller ids first, then the others) yields
    the whole tree.
   */
  lemma RamaDesdeSecuencias(l: Arbol, e: Entrada, r: Arbol, pl: seq<Entrada>, pr: seq<Entrada>)
    requires forall x | x in pl :: x.id < e.id
    requires forall x | x in pr :: x.id >= e.id
    requires InsertarTodos(Vacio, pl) == l && InsertarTodos(Vacio, pr) == r
    ensures InsertarTodos(Vacio, [e] + pl + pr) == Rama(l, e, r)
  {
    var hoja := Rama(Vacio, e, Vacio);
    calc {
      InsertarTodos(Vacio, [e] + pl + pr);
      { assert ([e] + pl + pr)[1..] == pl + pr; }
      InsertarTodos(hoja, pl + pr);
      { InsertarTodosConcatenados(hoja, pl, pr); }
      InsertarTodos(InsertarTodos(hoja, pl), pr);
      { InsertarTodosIzquierda(Vacio, e, Vacio, pl); }
      InsertarTodos(Rama(l, e, Vacio), pr);
      { InsertarTodosDerecha(l, e, Vacio, pr); }
      Rama(l, e, r);
    }
  }

  /**
    Re-inserting a search tree's pre-order traversal into an empty tree
    rebuilds exactly the same tree, equal ids included.
   */
  lemma {:induction false} ReconstruccionPorPreOrder(a: Arbol)
    requires EsBst(a)
    ensures InsertarTodos(Vacio, PreOrder(a)) == a
  {
    match a
    case Vacio =>
    case Rama(l, e, r) =>
      PreOrderAcotado(l, e.id);
      PreOrderAcotado(r, e.id);
      ReconstruccionPorPreOrder(l);
      ReconstruccionPorPreOrder(r);
      RamaDesdeSecuencias(l, e, r, PreOrder(l), PreOrder(r));
  }
}
