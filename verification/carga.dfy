/**
 * `Inventario.cargar`: turning the records of the parsed JSON file into
 * `Producto`/`Proveedor` values. Opening the file and parsing the JSON are
 * foreign I/O; the model receives their outcome.
 */
module Carga {
  import opened Wrappers
  import opened Entidades
  import opened Coleccion

  /** The nested `"proveedor"` object of a stored product. */
  datatype RegistroProveedor = RegistroProveedor(
    codigo: Option<string>,
    nombre: Option<string>,
    contacto: Option<string>)

  /** One element of the stored JSON array. */
  datatype Registro = Registro(
    codigo: string,
    nombre: string,
    precio: real,
    stock: int,
    proveedor: RegistroProveedor)

  /** `p` carries exactly the fields of record `r`, its supplier included. */
  ghost predicate CopiaDe(r: Registro, p: Producto)
  {
    && p.codigo == r.codigo
    && p.nombre == r.nombre
    && p.precio == r.precio
    && p.stock == r.stock
    && p.proveedor.codigo == r.proveedor.codigo
    && p.proveedor.nombre == r.proveedor.nombre
    && p.proveedor.contacto == r.proveedor.contacto
  }

  /** The body of the loop over the records: build the supplier, then the product. */
  function AProducto(r: Registro): (p: Producto)
    ensures CopiaDe(r, p)
  {
    var proveedor := Proveedor(r.proveedor.codigo, r.proveedor.nombre, r.proveedor.contacto);
    Producto(r.codigo, r.nombre, r.precio, r.stock, proveedor)
  }

  /** The records converted one by one, in file order. */
  function Convertir(regs: seq<Registro>): (ps: seq<Producto>)
    ensures |ps| == |regs|
    ensures forall k :: 0 <= k < |regs| ==> CopiaDe(regs[k], ps[k])
    decreases |regs|
  {
    if |regs| == 0 then []
    else [AProducto(regs[0])] + Convertir(regs[1..])
  }

  /**
   * `cargar` on the current list `ps`, given the parsed file: `None` when the
   * file does not exist (the list becomes empty), otherwise its records, each
   * appended as a new product after the products already held.
   */
  function CargarDatos(ps: seq<Producto>, datos: Option<seq<Registro>>): (r: seq<Producto>)
    ensures datos.None? ==> r == []
    ensures datos.Some? ==>
      && |r| == |ps| + |datos.value|
      && r[..|ps|] == ps
      && forall k :: 0 <= k < |datos.value| ==> CopiaDe(datos.value[k], r[|ps| + k])
  {
    match datos
    case None => []
    case Some(regs) => ps + Convertir(regs)
  }

  /** No two records of the file share a product code. */
  ghost predicate RegistrosUnicos(regs: seq<Registro>)
  {
    forall i, j :: 0 <= i < j < |regs| ==> regs[i].codigo != regs[j].codigo
  }

  /**
   * Loading checks no codes: the list afterwards has distinct codes exactly
   * when the list before did, the file's records did, and no record repeats
   * a code already held.
   */
  lemma CargaUnicidad(ps: seq<Producto>, regs: seq<Registro>)
    ensures CodigosUnicos(CargarDatos(ps, Some(regs))) <==>
      && CodigosUnicos(ps)
      && RegistrosUnicos(regs)
      && forall i, k :: 0 <= i < |ps| && 0 <= k < |regs| ==> ps[i].codigo != regs[k].codigo
  {
  }

  /** Two stored products with one code, both loaded into an empty inventory. */
  lemma CargaRepetidosRompeUnicidad()
    ensures
      var pv := RegistroProveedor(Some("S1"), Some("TechZone"), Some("ventas@techzone.com"));
      var regs := [Registro("P001", "Teclado", 45.99, 10, pv), Registro("P001", "Raton", 12.5, 3, pv)];
      && !RegistrosUnicos(regs)
      && !CodigosUnicos(CargarDatos([], Some(regs)))
  {
  }

  /** The inventory object: its configured file name and its product list. */
  datatype Inventario = Inventario(nombreFichero: string, productos: seq<Producto>)

  /** The constructor: it stores the file name and starts with no products. */
  function NuevoInventario(nombreFichero: string): (inv: Inventario)
    ensures inv.nombreFichero == nombreFichero
    ensures inv.productos == []
  {
    Inventario(nombreFichero, [])
  }

  /** The parsed contents of every file that exists, by path. */
  type Ficheros = map<string, seq<Registro>>

  /** The one path `cargar` opens, whatever the configured file name is. */
  const FicheroLeido: string := "inventario.json"

  /**
   * `cargar` on an inventory object: it reads `FicheroLeido`, not the
   * configured `nombreFichero`, and leaves the file name as it was.
   */
  function Cargar(inv: Inventario, fs: Ficheros): (r: Inventario)
    ensures r.nombreFichero == inv.nombreFichero
    ensures FicheroLeido !in fs ==> r.productos == []
    ensures FicheroLeido in fs ==>
      var regs := fs[FicheroLeido];
      && |r.productos| == |inv.productos| + |regs|
      && r.productos[..|inv.productos|] == inv.productos
      && forall k :: 0 <= k < |regs| ==> CopiaDe(regs[k], r.productos[|inv.productos| + k])
  {
    var datos := if FicheroLeido in fs then Some(fs[FicheroLeido]) else None;
    Inventario(inv.nombreFichero, CargarDatos(inv.productos, datos))
  }

  /**
   * Loading a new inventory gives exactly the file's records, in order, and
   * depends on the file `FicheroLeido` alone: an inventory configured with
   * another name loads nothing when `FicheroLeido` is absent, even though
   * its own file exists.
   */
  lemma CargarNuevo(nombre: string, fs: Ficheros)
    ensures FicheroLeido in fs ==> Cargar(NuevoInventario(nombre), fs).productos == Convertir(fs[FicheroLeido])
    ensures FicheroLeido !in fs ==> Cargar(NuevoInventario(nombre), fs).productos == []
    ensures Cargar(NuevoInventario(nombre), fs).productos == Cargar(NuevoInventario(FicheroLeido), fs).productos
  {
  }

  /** Position `i` holds the first record of `regs` whose code is `c`. */
  ghost predicate PrimerRegistro(regs: seq<Registro>, c: string, i: int)
  {
    && 0 <= i < |regs|
    && regs[i].codigo == c
    && forall j :: 0 <= j < i ==> regs[j].codigo != c
  }

  /**
   * After loading a file into a new inventory, looking up a code returns
   * the product built from the first record with that code; later records
   * with the same code are loaded but never found.
   */
  lemma BuscarTrasCarga(regs: seq<Registro>, c: string, i: int)
    requires PrimerRegistro(regs, c, i)
    ensures Buscar(CargarDatos([], Some(regs)), c) == Some(AProducto(regs[i]))
  {
    var ps := CargarDatos([], Some(regs));
    // `0 + i` matches the `r[|ps| + k]` term of CargarDatos's contract, with |ps| == 0.
    assert CopiaDe(regs[i], ps[0 + i]);
    var r := Buscar(ps, c);
    var k :| PrimeraCoincidencia(ps, c, k) && ps[k] == r.value;
    assert CopiaDe(regs[k], ps[0 + k]);
    assert k == i;
  }

  /** After loading into a new inventory, a code no record has is not found. */
  lemma BuscarAusenteTrasCarga(regs: seq<Registro>, c: string)
    requires forall j :: 0 <= j < |regs| ==> regs[j].codigo != c
    ensures Buscar(CargarDatos([], Some(regs)), c) == None
  {
  }
}
