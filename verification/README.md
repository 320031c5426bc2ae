# Inventory manager — Dafny model

This project models the in-memory core of a small Python inventory manager
(`gestion_inventario.py`). The manager keeps a list of products. Each product
embeds its own supplier. The model covers:

- the two data classes `Proveedor` (supplier) and `Producto` (product), as
  immutable datatypes (`entidades.dfy`);
- `Inventario.buscar`, the first-match lookup by product code, and
  `Inventario.anadir_producto`, which appends a product unless its code is
  already present (`coleccion.dfy`);
- the record-to-object loop of `Inventario.cargar`, plus the inventory
  object it updates (`carga.dfy`).

The product list is a `seq<Producto>`. The parsed JSON file is either absent
(`None`) or a sequence of `Registro` values. `precio` is a Python float. The
model keeps it as a `real` that nothing computes with. Float rounding, NaN and
infinities are not represented.
Supplier fields are `Option<string>`, because the text menu builds
`Proveedor(None, None, None)`.

Three behaviours of `cargar` that are easy to misread:

- `cargar` appends the loaded products after the ones already in the list
  (line 74). It does not replace the list. The list is replaced, by the empty
  list, only when the file is missing (line 76).
- `cargar` opens the literal path `inventario.json` (line 69). It ignores the
  inventory's configured `nombre_fichero`. `Carga.Cargar` reads
  `FicheroLeido`, and `Carga.CargarNuevo` states that the configured name
  makes no difference.
- `cargar` checks no codes. A file with a repeated code produces a list that
  breaks the uniqueness `anadir_producto` maintains. `Carga.CargaUnicidad`
  states exactly when uniqueness survives a load.

## Model

| member | source | states |
|---|---|---|
| Coleccion.Buscar | gestion_inventario.py:119-125 | returns `None` exactly when no product has the code; otherwise returns the product at the first position holding that code |
| Coleccion.AnadirProducto | gestion_inventario.py:97-109 | refuses exactly when some product already has the code, and then leaves the list unchanged; otherwise the list grows by one, keeps every earlier product in order, and ends with the new product; if the codes were pairwise distinct before the add, they still are afterwards |
| Coleccion.BuscarAlFinal | gestion_inventario.py:123-125 | a product appended at the end is found only for a code that no earlier product has; every other lookup gives the same answer as before |
| Coleccion.BuscarTrasAnadir | gestion_inventario.py:103-108 | after any add, every code's lookup is unchanged, except that a freshly added code now finds the new product |
| Coleccion.BuscarAnadidoNuevo | gestion_inventario.py:103-108 | adding a product with a fresh code succeeds, and looking up that code then returns that product |
| Coleccion.BuscarEnUnicos | gestion_inventario.py:123-125 | when codes are distinct, looking up a product's code returns that product |
| Coleccion.AnadirVariosConservaUnicidad | gestion_inventario.py:103-108 | any run of adds starting from distinct codes ends with distinct codes |
| Coleccion.AnadirVariosIncluyeOfrecidos | gestion_inventario.py:103-108 | every code offered during a run of adds is present at its end, whatever the starting list holds |
| Coleccion.AnadirVariosConservaCodigos | gestion_inventario.py:103-108 | no add ever removes a code that is already present |
| Coleccion.AnadirVarios | gestion_inventario.py:178-186 | the menu's repeated add option: the list after a run of adds keeps the starting list as its prefix, grows by at most one product per offered product, and every product after the prefix is one of the offered products |
| Coleccion.AnadirVariosUnoMas | gestion_inventario.py:178-186 | a run of menu adds that ends with offer `q` equals the shorter run followed by one add of `q`; with the add's own contract, this fixes the result as the accepted offers, each appended once, in offer order |
| Coleccion.BuscarConcat | gestion_inventario.py:123-125 | a lookup in a concatenation finds the first part's match when it has one, and otherwise the second part's |
| Coleccion.BuscarTrasVarios | gestion_inventario.py:178-186 | after a run of menu adds, every lookup returns what it would return on the starting list followed by all offered products, in offer order |
| Coleccion.SegundoP001Rechazado | gestion_inventario.py:103-106 | a second "P001" is refused, and the inventory keeps only the first product |
| Carga.NuevoInventario | gestion_inventario.py:59-61 | a new inventory keeps the given file name and holds no products |
| Carga.AProducto | gestion_inventario.py:72-73 | the product built from a record copies its code, name, price and stock, and its supplier copies the nested record's code, name and contact |
| Carga.Convertir | gestion_inventario.py:71-74 | yields one product per record, in record order; each product copies the record's code, name, price and stock, plus the nested supplier's code, name and contact |
| Carga.CargarDatos | gestion_inventario.py:63-76 | a missing file yields the empty list; otherwise the products already held come first, unchanged, followed by one copied product per record, in file order |
| Carga.Cargar | gestion_inventario.py:63-76 | the same on the inventory object; the file read is always `inventario.json`, and the configured file name is left untouched |
| Carga.CargarNuevo | gestion_inventario.py:59-76 | a new inventory loads exactly the converted records, or nothing if the file is missing; the result does not depend on the configured file name |
| Carga.CargaUnicidad | gestion_inventario.py:71-74 | after a load, codes are distinct exactly when the old list's codes were distinct, the records' codes were distinct, and no record reused an existing code |
| Carga.CargaRepetidosRompeUnicidad | gestion_inventario.py:71-74 | a file holding two "P001" records loads both, so the inventory then holds two products with one code |
| Carga.BuscarTrasCarga | gestion_inventario.py:71-74 | after loading into a new inventory, a lookup returns the product built from the first record with that code; later records with the same code are never found |
| Carga.BuscarAusenteTrasCarga | gestion_inventario.py:71-74 | after loading into a new inventory, a lookup of a code that no record has returns `None` |

## Left out

- `guardar` (lines 81-93) cannot be modelled faithfully. Line 89 subscripts a `Producto` object as if it were a dictionary, which raises `TypeError`. Line 93 passes `json.dump` its arguments in the wrong order. For the same reason there is no save/load round trip.
- `modificar`, `eliminar`, `valor_total` and `mostrar_por_proveedor` (lines 127-154) have empty bodies. Only their docstrings describe behaviour, so the model includes nothing for them.
- Opening the file and parsing the JSON (lines 68-70) are library I/O. They are abstracted as the parsed records, or `None` for a missing file.
- Any other failure to open the file raises and is not modelled. Examples are a permission error or a path that is a directory. `open` at line 69 raises these, `cargar` does not catch them, and `Ficheros` cannot express them.
- `cargar` has no modelled error path for malformed JSON or a record with a missing key. Those raise exceptions the method does not catch, and products appended before the failure stay in the list. The model takes well-formed records only.
- JSON values of unexpected types are not modelled. Examples are a `null` product code or a string `stock`. Product codes and names are strings, and `stock` is an integer.
- The `print` calls in `anadir_producto` and `mostrar` (lines 105, 109, 116-117) are left out. The outcome of an add is returned as `Anadido` or `Repetido` instead.
- `mostrar` and the `__str__` methods (lines 31-32, 47-49, 111-117) are presentation only. They format a float.
- `main` and the text menu (lines 161-207) are the interactive I/O loop. Repeated adds from the menu are represented by `AnadirVarios`.
