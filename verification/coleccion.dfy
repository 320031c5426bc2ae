/**
 * The in-memory product list of `Inventario`: lookup by code, adding with a
 * uniqueness check, and the invariant that adding keeps.
 */
module Coleccion {
  import opened Wrappers
  import opened Entidades

  /** Some product of `ps` carries the code `c`. */
  ghost predicate TieneCodigo(ps: seq<Producto>, c: string)
  {
    exists i :: 0 <= i < |ps| && ps[i].codigo == c
  }

  /** Position `i` holds the first product of `ps` whose code is `c`. */
  ghost predicate PrimeraCoincidencia(ps: seq<Producto>, c: string, i: int)
  {
    && 0 <= i < |ps|
    && ps[i].codigo == c
    && forall j :: 0 <= j < i ==> ps[j].codigo != c
  }

  /** The inventory's invariant: no two products share a code. */
  ghost predicate CodigosUnicos(ps: seq<Producto>)
  {
    forall i, j :: 0 <= i < j < |ps| ==> ps[i].codigo != ps[j].codigo
  }

  /**
   * `buscar`: a front-to-back scan that returns the first product whose code
   * equals `c`, or `None` when the scan falls off the end.
   */
  function Buscar(ps: seq<Producto>, c: string): (r: Option<Producto>)
    ensures r.None? <==> !TieneCodigo(ps, c)
    ensures r.Some? ==> exists i :: PrimeraCoincidencia(ps, c, i) && ps[i] == r.value
    decreases |ps|
  {
    if |ps| == 0 then None
    else if ps[0].codigo == c then
      assert PrimeraCoincidencia(ps, c, 0);
      Some(ps[0])
    else
      var r := Buscar(ps[1..], c);
      assert TieneCodigo(ps[1..], c) ==> TieneCodigo(ps, c) by {
        if TieneCodigo(ps[1..], c) {
          var i :| 0 <= i < |ps[1..]| && ps[1..][i].codigo == c;
          assert ps[i + 1].codigo == c;
        }
      }
      assert r.Some? ==> exists i :: PrimeraCoincidencia(ps, c, i) && ps[i] == r.value by {
        if r.Some? {
          var i :| PrimeraCoincidencia(ps[1..], c, i) && ps[1..][i] == r.value;
          assert PrimeraCoincidencia(ps, c, i + 1);
        }
      }
      r
  }

  /** How a call to `anadir_producto` ended: appended, or refused as a repeat. */
  datatype Resultado = Anadido | Repetido

  /** The product list after an add, together with how the add ended. */
  datatype TrasAnadir = TrasAnadir(productos: seq<Producto>, resultado: Resultado)

  /**
   * `anadir_producto`: scans the list for a product with the same code; on a
   * hit it returns without touching the list, otherwise it appends `p`.
   */
  function AnadirProducto(ps: seq<Producto>, p: Producto): (r: TrasAnadir)
    ensures r.resultado == Repetido <==> TieneCodigo(ps, p.codigo)
    ensures r.resultado == Repetido ==> r.productos == ps
    ensures r.resultado == Anadido ==>
      && |r.productos| == |ps| + 1
      && r.productos[..|ps|] == ps
      && r.productos[|ps|] == p
    ensures CodigosUnicos(ps) ==> CodigosUnicos(r.productos)
  {
    if Buscar(ps, p.codigo).Some? then TrasAnadir(ps, Repetido)
    else TrasAnadir(ps + [p], Anadido)
  }

  /**
   * Looking a code up in a list with one more product at the end finds what
   * the shorter list finds, and falls back to the new product only when the
   * shorter list has no product with that code.
   */
  lemma {:induction false} BuscarAlFinal(ps: seq<Producto>, q: Producto, c: string)
    ensures Buscar(ps + [q], c) ==
      if TieneCodigo(ps, c) then Buscar(ps, c)
      else if q.codigo == c then Some(q)
      else None
    decreases |ps|
  {
    if |ps| == 0 {
      assert ps + [q] == [q];
    } else if ps[0].codigo == c {
      assert (ps + [q])[0] == ps[0];
    } else {
      assert (ps + [q])[1..] == ps[1..] + [q];
      BuscarAlFinal(ps[1..], q, c);
      assert TieneCodigo(ps, c) <==> TieneCodigo(ps[1..], c) by {
        if TieneCodigo(ps, c) {
          var i :| 0 <= i < |ps| && ps[i].codigo == c;
          assert ps[1..][i - 1].codigo == c;
        }
        if TieneCodigo(ps[1..], c) {
          var i :| 0 <= i < |ps[1..]| && ps[1..][i].codigo == c;
          assert ps[i + 1].codigo == c;
        }
      }
    }
  }

  /**
   * After any add, a lookup of any code finds what it found before, except
   * that the code of a freshly appended product now finds that product.
   */
  lemma BuscarTrasAnadir(ps: seq<Producto>, p: Producto, c: string)
    ensures Buscar(AnadirProducto(ps, p).productos, c) ==
      if TieneCodigo(ps, c) then Buscar(ps, c)
      else if p.codigo == c then Some(p)
      else None
  {
  }

  /** A product added under a fresh code is what a lookup of that code returns. */
  lemma BuscarAnadidoNuevo(ps: seq<Producto>, p: Producto)
    requires !TieneCodigo(ps, p.codigo)
    ensures AnadirProducto(ps, p).resultado == Anadido
    ensures Buscar(AnadirProducto(ps, p).productos, p.codigo) == Some(p)
  {
  }

  /** In a list with distinct codes, each product is found by its own code. */
  lemma BuscarEnUnicos(ps: seq<Producto>, i: int)
    requires CodigosUnicos(ps)
    requires 0 <= i < |ps|
    ensures Buscar(ps, ps[i].codigo) == Some(ps[i])
  {
  }

  /** The list after adding the products of `qs` one by one, in order. */
  function AnadirVarios(ps: seq<Producto>, qs: seq<Producto>): (r: seq<Producto>)
    ensures |ps| <= |r| <= |ps| + |qs|
    ensures r[..|ps|] == ps
    ensures forall k :: |ps| <= k < |r| ==> r[k] in qs
    decreases |qs|
  {
    if |qs| == 0 then ps
    else
      var ps' := AnadirProducto(ps, qs[0]).productos;
      var r := AnadirVarios(ps', qs[1..]);
      assert forall k :: |ps| <= k < |ps'| ==> ps'[k] == qs[0];
      assert forall k :: |ps| <= k < |r| ==> r[k] in qs by {
        forall k | |ps| <= k < |r| ensures r[k] in qs {
          if k < |ps'| {
            assert r[k] == r[..|ps'|][k] == ps'[k];
          } else {
            assert r[k] in qs[1..];
          }
        }
      }
      r
  }

  /**
   * A run of adds ending in `q` is the shorter run followed by one more add
   * of `q`: each offer in turn is appended or refused against the list built
   * so far, so the run's result is fixed offer by offer, in offer order.
   */
  lemma {:induction false} AnadirVariosUnoMas(ps: seq<Producto>, qs: seq<Producto>, q: Producto)
    ensures AnadirVarios(ps, qs + [q]) == AnadirProducto(AnadirVarios(ps, qs), q).productos
    decreases |qs|
  {
    if |qs| == 0 {
      assert qs + [q] == [q];
      assert [q][1..] == [];
    } else {
      assert (qs + [q])[0] == qs[0];
      assert (qs + [q])[1..] == qs[1..] + [q];
      AnadirVariosUnoMas(AnadirProducto(ps, qs[0]).productos, qs[1..], q);
    }
  }

  /**
   * Any run of adds from a list with distinct codes (the empty list of a new
   * inventory among them) ends with distinct codes.
   */
  lemma {:induction false} AnadirVariosConservaUnicidad(ps: seq<Producto>, qs: seq<Producto>)
    requires CodigosUnicos(ps)
    ensures CodigosUnicos(AnadirVarios(ps, qs))
    decreases |qs|
  {
    if |qs| > 0 {
      AnadirVariosConservaUnicidad(AnadirProducto(ps, qs[0]).productos, qs[1..]);
    }
  }

  /**
   * Every code offered during a run of adds is present at its end, whatever
   * the starting list holds (a loaded file may already repeat codes).
   */
  lemma {:induction false} AnadirVariosIncluyeOfrecidos(ps: seq<Producto>, qs: seq<Producto>)
    ensures forall k :: 0 <= k < |qs| ==> TieneCodigo(AnadirVarios(ps, qs), qs[k].codigo)
    decreases |qs|
  {
    if |qs| > 0 {
      var ps' := AnadirProducto(ps, qs[0]).productos;
      AnadirVariosIncluyeOfrecidos(ps', qs[1..]);
      assert TieneCodigo(ps', qs[0].codigo) by {
        if AnadirProducto(ps, qs[0]).resultado == Anadido {
          assert ps'[|ps|] == qs[0];
        }
      }
      AnadirVariosConservaCodigos(ps', qs[1..], qs[0].codigo);
      forall k | 1 <= k < |qs|
        ensures TieneCodigo(AnadirVarios(ps, qs), qs[k].codigo)
      {
        assert qs[k] == qs[1..][k - 1];
      }
    }
  }

  /**
   * Looking a code up in a concatenation searches the first part, and the
   * second part only when the first has no product with that code.
   */
  lemma {:induction false} BuscarConcat(a: seq<Producto>, b: seq<Producto>, c: string)
    ensures Buscar(a + b, c) == if TieneCodigo(a, c) then Buscar(a, c) else Buscar(b, c)
    decreases |a|
  {
    if |a| == 0 {
      assert a + b == b;
    } else if a[0].codigo == c {
      assert (a + b)[0] == a[0];
    } else {
      assert (a + b)[1..] == a[1..] + b;
      BuscarConcat(a[1..], b, c);
      assert TieneCodigo(a, c) <==> TieneCodigo(a[1..], c) by {
        if TieneCodigo(a, c) {
          var i :| 0 <= i < |a| && a[i].codigo == c;
          assert a[1..][i - 1].codigo == c;
        }
        if TieneCodigo(a[1..], c) {
          var i :| 0 <= i < |a[1..]| && a[1..][i].codigo == c;
          assert a[i + 1].codigo == c;
        }
      }
    }
  }

  /**
   * After a run of adds, every lookup answers as if all offered products had
   * been appended unchecked: the refused ones carry a code that an earlier
   * product already holds, so a first-match lookup never reaches them.
   */
  lemma {:induction false} BuscarTrasVarios(ps: seq<Producto>, qs: seq<Producto>, c: string)
    ensures Buscar(AnadirVarios(ps, qs), c) == Buscar(ps + qs, c)
    decreases |qs|
  {
    if |qs| == 0 {
      assert ps + qs == ps;
    } else {
      var ps' := AnadirProducto(ps, qs[0]).productos;
      BuscarTrasVarios(ps', qs[1..], c);
      BuscarConcat(ps', qs[1..], c);
      BuscarConcat(ps, qs, c);
      BuscarTrasAnadir(ps, qs[0], c);
      assert Buscar(qs, c) == if qs[0].codigo == c then Some(qs[0]) else Buscar(qs[1..], c);
    }
  }

  /** A code present before a run of adds is still present after it. */
  lemma AnadirVariosConservaCodigos(ps: seq<Producto>, qs: seq<Producto>, c: string)
    requires TieneCodigo(ps, c)
    ensures TieneCodigo(AnadirVarios(ps, qs), c)
  {
  }

  /**
   * A second add of an existing code: adding a product with code "P001" to
   * an inventory already holding a "P001" product is refused, and the
   * inventory keeps exactly the first product.
   */
  lemma SegundoP001Rechazado()
    ensures
      var pv := Proveedor(Some("S1"), Some("TechZone"), Some("ventas@techzone.com"));
      var p1 := Producto("P001", "Teclado", 45.99, 10, pv);
      var p2 := Producto("P001", "Raton", 12.5, 3, Proveedor(None, None, None));
      var r := AnadirProducto(AnadirProducto([], p1).productos, p2);
      r.resultado == Repetido && r.productos == [p1]
  {
  }
}
