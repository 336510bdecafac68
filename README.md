# Book catalogue binary search tree, modelled in Dafny

The catalogue in `BSTRecorridos` keeps books (an integer id and a title) in a
plain, unbalanced binary search tree. `Nodo` holds one book and two child
links. `ArbolBinarioBusqueda` holds the root. It inserts by recursive descent:
a smaller id goes left, an equal or larger id goes right, and every insertion
creates a new node, so a repeated id is stored again. It lists the books in
in-order, pre-order and post-order. Each traversal walks the nodes recursively
and a callback appends one line per node to a result array.

The model has three modules:

- `ArbolAbstracto` is the tree as a value (`Arbol`, with entries `Entrada`).
  It defines insertion, the three traversals and the ordering invariant
  `EsBst`: every id on the left is strictly smaller and every id on the right
  is greater or equal. Its lemmas state what insertion and the traversals
  promise.
- `Bst` holds the two classes with their mutable links. Each node has a ghost
  footprint `Repr` and a ghost abstract value `Modelo`. Every method is proved
  to change the heap exactly as the matching function of `ArbolAbstracto`
  changes the value. Insertion only fills one empty child slot, and the tree
  stays a search tree.
- `Catalogo` holds the two clients. The first loads the seven sample books
  and lists them in all three orders. The second inserts two books with the
  same id.

## Model

| member | source | states |
|---|---|---|
| Bst.Nodo.constructor | BSTRecorridos/js/bst.js:2-8 | a new node stores the given id and title, has no children, and is a one-node tree of its own |
| Bst.ArbolBinarioBusqueda.constructor | BSTRecorridos/js/bst.js:13-15 | a new tree has no root and is the empty tree |
| Bst.ArbolBinarioBusqueda.Insertar | BSTRecorridos/js/bst.js:18-25 | one fresh node is added and the tree stays a search tree; into an empty tree the new node becomes the root as a leaf; otherwise the root is kept, and every existing link either is unchanged or was an empty slot that now holds the fresh node; the new abstract value is the abstract insertion |
| Bst.ArbolBinarioBusqueda.InsertarNodo | BSTRecorridos/js/bst.js:28-45 | the descent goes left on a smaller id and right otherwise (equal ids go right); it links the new node into exactly one empty slot, leaves every other link unchanged, and the subtree's value becomes the abstract insertion |
| Bst.ArbolBinarioBusqueda.InOrder | BSTRecorridos/js/bst.js:50-56 | the result is the in-order listing of the tree: ids in non-decreasing order, each stored entry exactly once, empty for an empty tree, and the tree is unchanged |
| Bst.ArbolBinarioBusqueda.InOrderRecursivo | BSTRecorridos/js/bst.js:58-64 | appends the subtree's entries to the result: the left subtree, then the node, then the right subtree |
| Bst.ArbolBinarioBusqueda.PreOrder | BSTRecorridos/js/bst.js:67-73 | the result is the pre-order listing: the root first, each entry exactly once, empty for an empty tree; inserting the result into an empty tree rebuilds the same tree |
| Bst.ArbolBinarioBusqueda.PreOrderRecursivo | BSTRecorridos/js/bst.js:75-81 | appends the node, then its left subtree, then its right subtree |
| Bst.ArbolBinarioBusqueda.PostOrder | BSTRecorridos/js/bst.js:84-90 | the result is the post-order listing: the root last, each entry exactly once, empty for an empty tree |
| Bst.ArbolBinarioBusqueda.PostOrderRecursivo | BSTRecorridos/js/bst.js:92-98 | appends the left subtree, then the right subtree, then the node |
| ArbolAbstracto.PreOrder | BSTRecorridos/js/bst.js:75-81 | a non-empty tree's pre-order starts with its root entry |
| ArbolAbstracto.PostOrder | BSTRecorridos/js/bst.js:92-98 | a non-empty tree's post-order ends with its root entry |
| ArbolAbstracto.InsertarAgregaUnNodo | BSTRecorridos/js/bst.js:18-45 | an insertion adds exactly one node; the stored entries gain exactly the inserted one, even when its id is already present |
| ArbolAbstracto.CotasSonSobreEntradas | BSTRecorridos/js/bst.js:30-43 | the recursive bounds of the ordering invariant hold exactly when every stored id is below the bound, or at least the bound; both directions are proved |
| ArbolAbstracto.InsertarConservaCotas | BSTRecorridos/js/bst.js:28-45 | inserting an entry that respects a bound keeps that bound on the whole subtree |
| ArbolAbstracto.InsertarPreservaBst | BSTRecorridos/js/bst.js:28-45 | insertion keeps the search-tree ordering: smaller ids on the left, equal or larger ids on the right |
| ArbolAbstracto.RecorridosVacios | BSTRecorridos/js/bst.js:58-98 | each traversal is empty exactly when the tree is empty |
| ArbolAbstracto.ContenidoInOrder | BSTRecorridos/js/bst.js:58-64 | in-order lists every stored entry exactly once, and its length is the node count |
| ArbolAbstracto.ContenidoPreOrder | BSTRecorridos/js/bst.js:75-81 | pre-order lists every stored entry exactly once, and its length is the node count |
| ArbolAbstracto.ContenidoPostOrder | BSTRecorridos/js/bst.js:92-98 | post-order lists every stored entry exactly once, and its length is the node count |
| ArbolAbstracto.RecorridosSonPermutaciones | BSTRecorridos/js/bst.js:49-98 | the three traversals are permutations of one another, and each is as long as the tree has nodes |
| ArbolAbstracto.InOrderOrdenado | BSTRecorridos/js/bst.js:49-64 | on a search tree, in-order lists the ids in non-decreasing order |
| ArbolAbstracto.InsertarTodosEsBst | BSTRecorridos/js/bst.js:18-45 | any sequence of insertions into a search tree yields a search tree |
| ArbolAbstracto.InsertarTodosEntradas | BSTRecorridos/js/bst.js:18-45 | a sequence of insertions adds exactly the entries of the sequence, duplicates included |
| ArbolAbstracto.InsertarTodosConcatenados | BSTRecorridos/js/bst.js:18-25 | inserting s followed by t is the same as inserting s and then inserting t |
| ArbolAbstracto.InsertarTodosIzquierda | BSTRecorridos/js/bst.js:30-35 | entries all smaller than the root's id all land in the left subtree |
| ArbolAbstracto.InsertarTodosDerecha | BSTRecorridos/js/bst.js:38-43 | entries all at least the root's id all land in the right subtree |
| ArbolAbstracto.ReconstruccionPorPreOrder | BSTRecorridos/js/bst.js:66-81 | inserting a search tree's pre-order listing into an empty tree rebuilds the identical tree, equal ids included |
| Catalogo.PasoDeMuestra | BSTRecorridos/js/app.js:74-80 | each sample insertion puts the book where the ordering sends it |
| Catalogo.CargarMuestra | BSTRecorridos/js/app.js:74-80 | inserting the seven sample books in the order 100, 50, 150, 25, 75, 125, 175 builds the complete tree of height three rooted at 100 |
| Catalogo.InOrderDeMuestra | BSTRecorridos/js/app.js:42-44 | in-order lists the sample ids as 25, 50, 75, 100, 125, 150, 175, with "El Principito" in the middle |
| Catalogo.PreOrderDeMuestra | BSTRecorridos/js/app.js:47-49 | pre-order lists the sample ids as 100, 50, 25, 75, 150, 125, 175 |
| Catalogo.PostOrderDeMuestra | BSTRecorridos/js/app.js:52-54 | post-order lists the sample ids as 25, 75, 50, 125, 175, 150, 100 |
| Catalogo.CatalogoDeEjemplo | BSTRecorridos/js/app.js:42-80 | the three traversal methods of the loaded sample tree return those three id listings |
| Catalogo.MismoIdDosVeces | BSTRecorridos/js/bst.js:38-43 | a second book with an id already present is stored as the right child of the first, and in-order lists both, the earlier one first |

## Left out

- The page wiring in `BSTRecorridos/js/app.js` is not modelled. That covers the form handler, `parseInt` and the empty-title check, the alerts, the buttons and `mostrarResultado`. Only the seven sample insertions and the three traversal calls are kept, as `Catalogo`.
- Bst.Nodo.Registro: stands for the formatted text of bst.js:53, 70 and 87 and carries no property of its own. Each traversal line is the formatted text `ID: <id>, Título: "<title>"`. The model emits the `Entrada(id, titulo)` pair instead, because the formatting is presentation only and is injective in the pair.
- The `callback` parameter of `inOrder`, `preOrder` and `postOrder` is never used, so it is not modelled. The internal closure that pushes onto `resultado` is modelled as a result sequence passed through the recursion.
- Ids are JavaScript numbers compared with `<`. The model uses unbounded integers, which is what the page passes after `parseInt`; fractional or NaN ids are not modelled.
- `id` and `titulo` are `const` fields, because `bst.js` never reassigns them after the constructor.
- Equal ids are stored, not ignored. They always go to the right, and duplicates create new nodes, as `bst.js` does. `bst.js` has no membership lookup, no breadth-first traversal and no bulk load, so the model has none either.
- Bst.ArbolBinarioBusqueda.Insertar: does not state the multiset of entries or the node count of the new tree itself. Its ensures ties the new abstract value to `ArbolAbstracto.Insertar`, and `ArbolAbstracto.InsertarAgregaUnNodo` proves both facts about that function. Keeping them out of the heap method keeps its proof small.
- Some sample titles in `app.js` have damaged accented characters. The model writes them as intended ("Cien Años de Soledad", "Crónica de una Muerte Anunciada").
- Bst.ArbolBinarioBusqueda.InsertarNodo, Bst.ArbolBinarioBusqueda.InOrderRecursivo, Bst.ArbolBinarioBusqueda.PreOrderRecursivo and Bst.ArbolBinarioBusqueda.PostOrderRecursivo: recurse once per tree level, as `bst.js` does at lines 34, 42, 60-62, 78-79 and 94-95. On a degenerate tree (books inserted with increasing ids) JavaScript throws a `RangeError` once the engine's call-stack limit is reached. The model has no call-stack limit, so these methods, and `Insertar`, `InOrder`, `PreOrder` and `PostOrder` above them, always complete; that error path is not captured.
- Bst.Nodo.Valid: bounds a node's footprint `Repr` from below (the node and its children's footprints) but does not state it equal to their union, because the equation makes the insertion proofs several times too costly. So `|Repr| == |old(Repr)| + 1` in `Bst.ArbolBinarioBusqueda.Insertar` counts footprint objects; the node count of the tree is `Tamano(Modelo)`, which `ArbolAbstracto.InsertarAgregaUnNodo` proves grows by exactly one.
