/**
  The heap-based binary search tree of the book catalogue: nodes linked by
  mutable left/right references, a tree object holding the root, insertion by
  recursive descent that fills one empty child slot, and the three recursive
  traversals that append one entry per node to a result sequence.
  Each node carries a ghost footprint (Repr) and a ghost abstract value
  (Modelo), so every method is proved against module ArbolAbstracto.
 */
module Bst {
  import opened ArbolAbstracto

  /** The footprint of a possibly absent subtree. */
  ghost function ReprDe(n: Nodo?): set<Nodo>
    reads n
  {
    if n == null then {} else n.Repr
  }

  /** The abstract value of a possibly absent subtree. */
  ghost function ModeloDe(n: Nodo?): Arbol
    reads n
  {
    if n == null then Vacio else n.Modelo
  }

  /** Regrouping of an accumulated result with three appended pieces. */
  lemma Asociativa<T>(a: seq<T>, b: seq<T>, c: seq<T>, d: seq<T>)
    ensures a + (b + c + d) == a + b + c + d
  {
  }

  class Nodo {
    const id: int
    const titulo: string
    var izquierda: Nodo?
    var derecha: Nodo?

    ghost var Repr: set<Nodo>
    ghost var Modelo: Arbol

    /** The (id, titulo) pair that a traversal emits for this node. */
    function Registro(): Entrada
    {
      Entrada(id, titulo)
    }

    /**
      The subtree rooted here is a strict binary tree (no sharing, no cycles)
      whose footprint is this node plus its children's footprints, and Modelo
      is its abstract value.
     */
    ghost predicate Valid()
      reads this, Repr
      decreases Repr
    {
      this in Repr &&
      (izquierda != null ==>
        izquierda in Repr && izquierda.Repr <= Repr && this !in izquierda.Repr && izquierda.Valid()) &&
      (derecha != null ==>
        derecha in Repr && derecha.Repr <= Repr && this !in derecha.Repr && derecha.Valid()) &&
      (izquierda != null && derecha != null ==> izquierda.Repr !! derecha.Repr) &&
      Modelo == Rama(ModeloDe(izquierda), Registro(), ModeloDe(derecha))
    }

    /** A new node is a leaf. */
    constructor (id: int, titulo: string)
      ensures Valid() && Repr == {this}
      ensures this.id == id && this.titulo == titulo
      ensures izquierda == null && derecha == null
      ensures Modelo == Rama(Vacio, Entrada(id, titulo), Vacio)
    {
      this.id := id;
      this.titulo := titulo;
      izquierda := null;
      derecha := null;
      Repr := {this};
      Modelo := Rama(Vacio, Entrada(id, titulo), Vacio);
    }
  }

  class ArbolBinarioBusqueda {
    var raiz: Nodo?

    ghost var Repr: set<object>
    ghost var Modelo: Arbol

    /** The tree owns the node graph under raiz, and it is ordered as a search tree. */
    ghost predicate Valid()
      reads this, Repr
    {
      this in Repr &&
      (raiz == null ==> Repr == {this} && Modelo == Vacio) &&
      (raiz != null ==>
        raiz in Repr && raiz.Repr <= Repr && raiz.Valid() &&
        Repr == {this} + raiz.Repr && Modelo == raiz.Modelo) &&
      EsBst(Modelo)
    }

    /** The tree starts empty. */
    constructor ()
      ensures Valid() && fresh(Repr)
      ensures raiz == null && Modelo == Vacio
    {
      raiz := null;
      Repr := {this};
      Modelo := Vacio;
    }

    /**
      Adds one new node for (id, titulo), duplicates included: into an empty
      tree it becomes the root, otherwise it fills one empty child slot.
     */
    method Insertar(id: int, titulo: string)
      requires Valid()
      modifies Repr
      ensures Valid() && fresh(Repr - old(Repr))
      ensures Modelo == ArbolAbstracto.Insertar(old(Modelo), Entrada(id, titulo))
      ensures |Repr| == |old(Repr)| + 1
      ensures old(raiz) == null ==>
        raiz != null && fresh(raiz) && raiz.Registro() == Entrada(id, titulo) &&
        raiz.izquierda == null && raiz.derecha == null
      ensures old(raiz) != null ==> raiz == old(raiz)
      ensures old(raiz) != null ==>
        forall n | n in old(raiz.Repr) ::
          (n.izquierda == old(n.izquierda) || (old(n.izquierda) == null && n.izquierda != null && fresh(n.izquierda))) &&
          (n.derecha == old(n.derecha) || (old(n.derecha) == null && n.derecha != null && fresh(n.derecha)))
    {
      ghost var e := Entrada(id, titulo);
      ghost var despues := ArbolAbstracto.Insertar(Modelo, e);
      InsertarPreservaBst(Modelo, e);
      var nuevoNodo := new Nodo(id, titulo);
      if raiz == null {
        raiz := nuevoNodo;
      } else {
        InsertarNodo(raiz, nuevoNodo);
      }
      assert raiz.Valid() && raiz.Modelo == despues;
      Repr, Modelo := {this} + raiz.Repr, raiz.Modelo;
      assert Repr == old(Repr) + {nuevoNodo} && nuevoNodo !in old(Repr);
    }

    /**
      Descends from nodo: left when the new id is smaller than the node's id,
      right otherwise, and links nuevoNodo into the first empty slot reached.
      Existing links are kept; only that one empty slot changes.
     */
    method InsertarNodo(nodo: Nodo, nuevoNodo: Nodo)
      requires nodo.Valid() && nuevoNodo.Valid()
      requires nuevoNodo.Repr == {nuevoNodo}
      requires nuevoNodo !in nodo.Repr
      modifies nodo.Repr
      decreases nodo.Repr
      ensures nodo.Valid()
      ensures nodo.Repr == old(nodo.Repr) + {nuevoNodo}
      ensures nodo.Modelo == ArbolAbstracto.Insertar(old(nodo.Modelo), nuevoNodo.Registro())
      ensures forall n | n in old(nodo.Repr) ::
        (n.izquierda == old(n.izquierda) || (old(n.izquierda) == null && n.izquierda == nuevoNodo)) &&
        (n.derecha == old(n.derecha) || (old(n.derecha) == null && n.derecha == nuevoNodo))
    {
      ghost var e := nuevoNodo.Registro();
      ghost var l, d := ModeloDe(nodo.izquierda), ModeloDe(nodo.derecha);
      if nuevoNodo.id < nodo.id {
        if nodo.izquierda == null {
          nodo.izquierda := nuevoNodo;
        } else {
          InsertarNodo(nodo.izquierda, nuevoNodo);
        }
        assert nodo.izquierda.Valid() && ModeloDe(nodo.izquierda) == ArbolAbstracto.Insertar(l, e);
        assert nodo.izquierda.Repr == old(ReprDe(nodo.izquierda)) + {nuevoNodo};
        assert nodo.derecha != null ==>
          nodo.derecha.Valid() && nodo.derecha.Repr == old(nodo.derecha.Repr) && nodo.derecha.Modelo == d;
      } else {
        if nodo.derecha == null {
          nodo.derecha := nuevoNodo;
        } else {
          InsertarNodo(nodo.derecha, nuevoNodo);
        }
        assert nodo.derecha.Valid() && ModeloDe(nodo.derecha) == ArbolAbstracto.Insertar(d, e);
        assert nodo.derecha.Repr == old(ReprDe(nodo.derecha)) + {nuevoNodo};
        assert nodo.izquierda != null ==>
          nodo.izquierda.Valid() && nodo.izquierda.Repr == old(nodo.izquierda.Repr) && nodo.izquierda.Modelo == l;
      }
      nodo.Repr, nodo.Modelo := nodo.Repr + {nuevoNodo}, Rama(ModeloDe(nodo.izquierda), nodo.Registro(), ModeloDe(nodo.derecha));
    }

    // --- Traversals ---

    /** In-order: the entries sorted by id, each node once. */
    method InOrder() returns (resultado: seq<Entrada>)
      requires Valid()
      ensures Valid()
      ensures resultado == ArbolAbstracto.InOrder(Modelo)
      ensures Ordenado(resultado)
      ensures multiset(resultado) == Entradas(Modelo)
      ensures raiz == null ==> resultado == []
    {
      resultado := InOrderRecursivo(raiz, []);
      assert ModeloDe(raiz) == Modelo && [] + ArbolAbstracto.InOrder(Modelo) == ArbolAbstracto.InOrder(Modelo);
      if raiz != null {
        assert raiz.Valid() && Modelo.entrada == raiz.Registro();
      }
      InOrderOrdenado(Modelo);
      ContenidoInOrder(Modelo);
    }

    /** Appends the in-order entries of the subtree at nodo to resultado. */
    method InOrderRecursivo(nodo: Nodo?, resultado: seq<Entrada>) returns (r: seq<Entrada>)
      requires nodo != null ==> nodo.Valid()
      decreases ReprDe(nodo)
      ensures r == resultado + ArbolAbstracto.InOrder(ModeloDe(nodo))
    {
      r := resultado;
      if nodo != null {
        ghost var l, d := ModeloDe(nodo.izquierda), ModeloDe(nodo.derecha);
        assert ModeloDe(nodo) == Rama(l, nodo.Registro(), d);
        var r1 := InOrderRecursivo(nodo.izquierda, r);
        assert r1 == resultado + ArbolAbstracto.InOrder(l);
        var r2 := r1 + [nodo.Registro()];
        r := InOrderRecursivo(nodo.derecha, r2);
        assert r == r2 + ArbolAbstracto.InOrder(d);
        Asociativa(resultado, ArbolAbstracto.InOrder(l), [nodo.Registro()], ArbolAbstracto.InOrder(d));
      }
    }

    /**
      Pre-order: the root first, each node once; replaying it into an empty
      tree rebuilds the same tree.
     */
    method PreOrder() returns (resultado: seq<Entrada>)
      requires Valid()
      ensures Valid()
      ensures resultado == ArbolAbstracto.PreOrder(Modelo)
      ensures multiset(resultado) == Entradas(Modelo)
      ensures raiz == null ==> resultado == []
      ensures raiz != null ==> |resultado| > 0 && resultado[0] == raiz.Registro()
      ensures InsertarTodos(Vacio, resultado) == Modelo
    {
      resultado := PreOrderRecursivo(raiz, []);
      assert ModeloDe(raiz) == Modelo && [] + ArbolAbstracto.PreOrder(Modelo) == ArbolAbstracto.PreOrder(Modelo);
      if raiz != null {
        assert raiz.Valid() && Modelo.entrada == raiz.Registro();
      }
      ContenidoPreOrder(Modelo);
      ReconstruccionPorPreOrder(Modelo);
    }

    /** Appends the pre-order entries of the subtree at nodo to resultado. */
    method PreOrderRecursivo(nodo: Nodo?, resultado: seq<Entrada>) returns (r: seq<Entrada>)
      requires nodo != null ==> nodo.Valid()
      decreases ReprDe(nodo)
      ensures r == resultado + ArbolAbstracto.PreOrder(ModeloDe(nodo))
    {
      r := resultado;
      if nodo != null {
        ghost var l, d := ModeloDe(nodo.izquierda), ModeloDe(nodo.derecha);
        assert ModeloDe(nodo) == Rama(l, nodo.Registro(), d);
        var r1 := resultado + [nodo.Registro()];
        var r2 := PreOrderRecursivo(nodo.izquierda, r1);
        assert r2 == r1 + ArbolAbstracto.PreOrder(l);
        r := PreOrderRecursivo(nodo.derecha, r2);
        assert r == r2 + ArbolAbstracto.PreOrder(d);
        Asociativa(resultado, [nodo.Registro()], ArbolAbstracto.PreOrder(l), ArbolAbstracto.PreOrder(d));
      }
    }

    /** Post-order: both subtrees before their node, so the root last; each node once. */
    method PostOrder() returns (resultado: seq<Entrada>)
      requires Valid()
      ensures Valid()
      ensures resultado == ArbolAbstracto.PostOrder(Modelo)
      ensures multiset(resultado) == Entradas(Modelo)
      ensures raiz == null ==> resultado == []
      ensures raiz != null ==> |resultado| > 0 && resultado[|resultado| - 1] == raiz.Registro()
    {
      resultado := PostOrderRecursivo(raiz, []);
      assert ModeloDe(raiz) == Modelo && [] + ArbolAbstracto.PostOrder(Modelo) == ArbolAbstracto.PostOrder(Modelo);
      if raiz != null {
        assert raiz.Valid() && Modelo.entrada == raiz.Registro();
      }
      ContenidoPostOrder(Modelo);
    }

    /** Appends the post-order entries of the subtree at nodo to resultado. */
    method PostOrderRecursivo(nodo: Nodo?, resultado: seq<Entrada>) returns (r: seq<Entrada>)
      requires nodo != null ==> nodo.Valid()
      decreases ReprDe(nodo)
      ensures r == resultado + ArbolAbstracto.PostOrder(ModeloDe(nodo))
    {
      r := resultado;
      if nodo != null {
        ghost var l, d := ModeloDe(nodo.izquierda), ModeloDe(nodo.derecha);
        assert ModeloDe(nodo) == Rama(l, nodo.Registro(), d);
        var r1 := PostOrderRecursivo(nodo.izquierda, resultado);
        assert r1 == resultado + ArbolAbstracto.PostOrder(l);
        var r2 := PostOrderRecursivo(nodo.derecha, r1);
        assert r2 == r1 + ArbolAbstracto.PostOrder(d);
        r := r2 + [nodo.Registro()];
        Asociativa(resultado, ArbolAbstracto.PostOrder(l), ArbolAbstracto.PostOrder(d), [nodo.Registro()]);
      }
    }
  }
}
