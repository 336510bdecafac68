/**
  Clients of the tree: the catalogue's sample data set, and two books that
  share one id.
 */
module Catalogo {
  import opened ArbolAbstracto
  import opened Bst

  function Hoja(id: int, titulo: string): Arbol
  {
    Rama(Vacio, Entrada(id, titulo), Vacio)
  }

  /** The tree that the sample insertions build. */
  function Muestra(): Arbol
  {
    Rama(Rama(Hoja(25, "Crónica de una Muerte Anunciada"), Entrada(50, "Cien Años de Soledad"),
              Hoja(75, "La Sombra del Viento")),
         Entrada(100, "El Principito"),
         Rama(Hoja(125, "Ficciones"), Entrada(150, "Don Quijote de la Mancha"), Hoja(175, "Rayuela")))
  }

  /** The sample books in the order the catalogue inserts them. */
  const Libros: seq<Entrada> := [
    Entrada(100, "El Principito"),
    Entrada(50, "Cien Años de Soledad"),
    Entrada(150, "Don Quijote de la Mancha"),
    Entrada(25, "Crónica de una Muerte Anunciada"),
    Entrada(75, "La Sombra del Viento"),
    Entrada(125, "Ficciones"),
    Entrada(175, "Rayuela")
  ]

  /** The tree before each sample insertion, and after the last one. */
  const Pasos: seq<Arbol> := [
    Vacio,
    Hoja(100, "El Principito"),
    Rama(Hoja(50, "Cien Años de Soledad"), Entrada(100, "El Principito"), Vacio),
    Rama(Hoja(50, "Cien Años de Soledad"), Entrada(100, "El Principito"), Hoja(150, "Don Quijote de la Mancha")),
    Rama(Rama(Hoja(25, "Crónica de una Muerte Anunciada"), Entrada(50, "Cien Años de Soledad"), Vacio),
         Entrada(100, "El Principito"), Hoja(150, "Don Quijote de la Mancha")),
    Rama(Rama(Hoja(25, "Crónica de una Muerte Anunciada"), Entrada(50, "Cien Años de Soledad"),
              Hoja(75, "La Sombra del Viento")),
         Entrada(100, "El Principito"), Hoja(150, "Don Quijote de la Mancha")),
    Rama(Rama(Hoja(25, "Crónica de una Muerte Anunciada"), Entrada(50, "Cien Años de Soledad"),
              Hoja(75, "La Sombra del Viento")),
         Entrada(100, "El Principito"),
         Rama(Hoja(125, "Ficciones"), Entrada(150, "Don Quijote de la Mancha"), Vacio)),
    Muestra()
  ]

  /** Each sample insertion goes where the ordering sends it. */
  lemma PasoDeMuestra(k: nat)
    requires k < |Libros|
    ensures |Pasos| == |Libros| + 1
    ensures Insertar(Pasos[k], Libros[k]) == Pasos[k + 1]
  {
  }

  /** The seven sample books, inserted in the order 100, 50, 150, 25, 75, 125, 175. */
  method CargarMuestra() returns (bst: ArbolBinarioBusqueda)
    ensures fresh(bst.Repr) && bst.Valid()
    ensures bst.Modelo == Muestra()
  {
    bst := new ArbolBinarioBusqueda();
    var k := 0;
    while k < |Libros|
      invariant 0 <= k <= |Libros|
      invariant fresh(bst.Repr) && bst.Valid()
      invariant bst.Modelo == Pasos[k]
    {
      PasoDeMuestra(k);
      var libro := Libros[k];
      bst.Insertar(libro.id, libro.titulo);
      k := k + 1;
    }
  }

  /** In-order lists the sample by increasing id; the root sits in the middle. */
  lemma InOrderDeMuestra()
    ensures Ids(InOrder(Muestra())) == [25, 50, 75, 100, 125, 150, 175]
    ensures InOrder(Muestra())[3] == Entrada(100, "El Principito")
  {
    assert InOrder(Muestra()) == [Libros[3], Libros[1], Libros[4], Libros[0], Libros[5], Libros[2], Libros[6]] by {
      assert InOrder(Muestra().izquierda) == [Libros[3], Libros[1], Libros[4]];
      assert InOrder(Muestra().derecha) == [Libros[5], Libros[2], Libros[6]];
    }
  }

  /** Pre-order lists the sample in the order it was inserted. */
  lemma PreOrderDeMuestra()
    ensures Ids(PreOrder(Muestra())) == [100, 50, 25, 75, 150, 125, 175]
  {
    assert PreOrder(Muestra()) == [Libros[0], Libros[1], Libros[3], Libros[4], Libros[2], Libros[5], Libros[6]] by {
      assert PreOrder(Muestra().izquierda) == [Libros[1], Libros[3], Libros[4]];
      assert PreOrder(Muestra().derecha) == [Libros[2], Libros[5], Libros[6]];
    }
  }

  /** Post-order lists every subtree before its root. */
  lemma PostOrderDeMuestra()
    ensures Ids(PostOrder(Muestra())) == [25, 75, 50, 125, 175, 150, 100]
  {
    assert PostOrder(Muestra()) == [Libros[3], Libros[4], Libros[1], Libros[5], Libros[6], Libros[2], Libros[0]] by {
      assert PostOrder(Muestra().izquierda) == [Libros[3], Libros[4], Libros[1]];
      assert PostOrder(Muestra().derecha) == [Libros[5], Libros[6], Libros[2]];
    }
  }

  /**
    The sample gives a complete tree of height three: in-order lists the ids
    sorted, pre-order starts at the first book inserted, post-order ends there.
   */
  method CatalogoDeEjemplo() returns (inOrden: seq<Entrada>, preOrden: seq<Entrada>, postOrden: seq<Entrada>)
    ensures Ids(inOrden) == [25, 50, 75, 100, 125, 150, 175]
    ensures Ids(preOrden) == [100, 50, 25, 75, 150, 125, 175]
    ensures Ids(postOrden) == [25, 75, 50, 125, 175, 150, 100]
    ensures inOrden[3] == Entrada(100, "El Principito")
  {
    var bst := CargarMuestra();
    inOrden := bst.InOrder();
    assert inOrden == InOrder(Muestra());
    preOrden := bst.PreOrder();
    assert preOrden == PreOrder(Muestra());
    postOrden := bst.PostOrder();
    assert postOrden == PostOrder(Muestra());
    InOrderDeMuestra();
    PreOrderDeMuestra();
    PostOrderDeMuestra();
  }

  /**
    A second book with an id already present is stored, not ignored: it goes
    to the right of the first, and both appear in every traversal, the earlier
    one first in order.
   */
  method MismoIdDosVeces() returns (inOrden: seq<Entrada>, derechaDeLaRaiz: Entrada)
    ensures inOrden == [Entrada(7, "Ficciones"), Entrada(7, "Rayuela")]
    ensures derechaDeLaRaiz == Entrada(7, "Rayuela")
  {
    var bst := new ArbolBinarioBusqueda();
    bst.Insertar(7, "Ficciones");
    bst.Insertar(7, "Rayuela");
    inOrden := bst.InOrder();
    assert bst.raiz.Valid() && bst.raiz.derecha.Valid();
    derechaDeLaRaiz := bst.raiz.derecha.Registro();
  }
}
