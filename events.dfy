/**
 * The `Evento` record of the agenda and its factory `crearEvento`.
 * The identifier comes from a generator whose code is not part of this
 * model; the value it returned for the call is passed in as `id`.
 */
module Events {
  import opened Wrappers

  /** A data class: immutable, with structural equality. */
  datatype Evento = Evento(id: string, titulo: string, fecha: string, descripcion: Option<string>)

  /** `Evento.crearEvento`: wraps the generated id and the three inputs, unchanged. */
  function CrearEvento(id: string, titulo: string, fecha: string, descripcion: Option<string>): (e: Evento)
    ensures e.id == id
    ensures e.titulo == titulo
    ensures e.fecha == fecha
    ensures e.descripcion == descripcion
  {
    Evento(id, titulo, fecha, descripcion)
  }

  /** The factory loses nothing: equal events come from equal arguments. */
  lemma CrearEventoInjective(id1: string, t1: string, f1: string, d1: Option<string>,
                             id2: string, t2: string, f2: string, d2: Option<string>)
    ensures CrearEvento(id1, t1, f1, d1) == CrearEvento(id2, t2, f2, d2)
            <==> id1 == id2 && t1 == t2 && f1 == f2 && d1 == d2
  {
  }

  /** Equality of a data class compares the four properties. */
  lemma StructuralEquality(a: Evento, b: Evento)
    ensures a == b <==> a.id == b.id && a.titulo == b.titulo && a.fecha == b.fecha && a.descripcion == b.descripcion
  {
  }
}
