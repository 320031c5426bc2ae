/**
 * The two plain data classes of the inventory program: a supplier and a
 * product that embeds its own supplier by value.
 */
module Entidades {
  import opened Wrappers

  /**
   * A supplier. The constructor copies its three arguments and validates
   * none of them; the text menu builds `Proveedor(None, None, None)`, so each
   * field may be absent.
   */
  datatype Proveedor = Proveedor(
    codigo: Option<string>,
    nombre: Option<string>,
    contacto: Option<string>)

  /**
   * A product. `codigo` is the key the inventory compares with `==`.
   * `precio` is a Python float, kept as a `real` that nothing computes with;
   * float rounding, NaN and infinities are not represented. Nothing checks the
   * sign of `stock`; the constructor stores it as given.
   * The supplier is owned by value: two products never share one.
   */
  datatype Producto = Producto(
    codigo: string,
    nombre: string,
    precio: real,
    stock: int,
    proveedor: Proveedor)
}
