/**
 * The screen's state and its button handlers: the event list `listaEventos`
 * (a mutable list that only the save button appends to) and the text shown
 * in the list view. Widgets, dialogs and the activity lifecycle are not
 * modelled; the text typed into a field is a parameter of the handler that
 * reads it, and the id generator's result is the parameter `newId`.
 */
module MainActivity {
  import opened Wrappers
  import opened Events
  import opened EventViews

  /** `descripcion.takeIf { it.isNotEmpty() }`: the empty text becomes null. */
  function OptionalDescripcion(descripcion: string): (r: Option<string>)
    ensures r.None? <==> descripcion == ""
    ensures r.Some? ==> r.value == descripcion
  {
    if |descripcion| > 0 then Some(descripcion) else None
  }

  /** The list after the save button: one new event when title and date are non-empty, else unchanged. */
  function SaveEvent(lista: seq<Evento>, titulo: string, fecha: string, descripcion: string, newId: string): seq<Evento>
  {
    if |titulo| > 0 && |fecha| > 0 then
      lista + [CrearEvento(newId, titulo, fecha, OptionalDescripcion(descripcion))]
    else
      lista
  }

  /** An empty title or date is silently rejected. */
  lemma SaveRejectsEmpty(lista: seq<Evento>, titulo: string, fecha: string, descripcion: string, newId: string)
    requires titulo == "" || fecha == ""
    ensures SaveEvent(lista, titulo, fecha, descripcion, newId) == lista
  {
  }

  /**
   * With both fields non-empty (blank text included, nothing is trimmed) the
   * list grows by one: the old list is a prefix and the new last event holds
   * the inputs, the generated id, and null for an empty description.
   */
  lemma SaveAppendsOne(lista: seq<Evento>, titulo: string, fecha: string, descripcion: string, newId: string)
    requires titulo != "" && fecha != ""
    ensures var r := SaveEvent(lista, titulo, fecha, descripcion, newId);
      && |r| == |lista| + 1
      && r[..|lista|] == lista
      && r[|lista|].id == newId
      && r[|lista|].titulo == titulo
      && r[|lista|].fecha == fecha
      && r[|lista|].descripcion == (if descripcion == "" then None else Some(descripcion))
  {
  }

  /** Every stored event has a non-empty title and date. */
  ghost predicate AllComplete(lista: seq<Evento>)
  {
    forall i :: 0 <= i < |lista| ==> lista[i].titulo != "" && lista[i].fecha != ""
  }

  predicate DistinctIds(lista: seq<Evento>)
  {
    forall i, j :: 0 <= i < j < |lista| ==> lista[i].id != lista[j].id
  }

  /** Saving keeps the ids distinct provided the generator returns a new id. */
  lemma SaveKeepsIdsDistinct(lista: seq<Evento>, titulo: string, fecha: string, descripcion: string, newId: string)
    requires DistinctIds(lista)
    requires forall i :: 0 <= i < |lista| ==> lista[i].id != newId
    ensures DistinctIds(SaveEvent(lista, titulo, fecha, descripcion, newId))
  {
  }

  /** Saves never reorder or drop what is stored: the list before is a prefix of the list after. */
  lemma SavePreservesPrefix(lista: seq<Evento>, titulo: string, fecha: string, descripcion: string, newId: string)
    ensures var r := SaveEvent(lista, titulo, fecha, descripcion, newId);
      |lista| <= |r| && r[..|lista|] == lista
  {
  }

  class EventStore {
    var listaEventos: seq<Evento>
    /** The text of `eventsListTextView`. */
    var textoMostrado: string

    ghost predicate Valid()
      reads this
    {
      AllComplete(listaEventos)
    }

    /** `onCreate`: an empty list, and the initial rendering of it. */
    constructor ()
      ensures Valid()
      ensures listaEventos == []
      ensures textoMostrado == NoMatchMessage
    {
      listaEventos := [];
      textoMostrado := Render([]);
    }

    /** `actualizarListaEventos(eventos)`: shows `eventos`, the list itself is untouched. */
    method UpdateEventList(eventos: seq<Evento>)
      requires Valid()
      modifies this
      ensures Valid()
      ensures listaEventos == old(listaEventos)
      ensures textoMostrado == Render(eventos)
    {
      textoMostrado := Render(eventos);
    }

    /** The save button. The view is refreshed only when the event was added. */
    method SaveClicked(titulo: string, fecha: string, descripcion: string, newId: string)
      requires Valid()
      modifies this
      ensures Valid()
      ensures listaEventos == SaveEvent(old(listaEventos), titulo, fecha, descripcion, newId)
      ensures textoMostrado == if titulo != "" && fecha != "" then Render(listaEventos) else old(textoMostrado)
    {
      if |titulo| > 0 && |fecha| > 0 {
        var nuevoEvento := CrearEvento(newId, titulo, fecha, OptionalDescripcion(descripcion));
        listaEventos := listaEventos + [nuevoEvento];
        UpdateEventList(listaEventos);
      }
    }

    /** The filter button: shows the events whose title contains `filtro`, ignoring case. */
    method FilterClicked(filtro: string)
      requires Valid()
      modifies this
      ensures Valid()
      ensures listaEventos == old(listaEventos)
      ensures textoMostrado == Render(Filter(listaEventos, filtro))
    {
      var eventosFiltrados := Filter(listaEventos, filtro);
      UpdateEventList(eventosFiltrados);
    }

    /** The sort button: shows the events sorted by date; the stored order is kept. */
    method SortClicked()
      requires Valid()
      modifies this
      ensures Valid()
      ensures listaEventos == old(listaEventos)
      ensures textoMostrado == Render(SortByFecha(listaEventos))
    {
      var eventosOrdenados := SortByFecha(listaEventos);
      UpdateEventList(eventosOrdenados);
    }

    /** The clear button: shows the whole list again, in insertion order. */
    method ClearClicked()
      requires Valid()
      modifies this
      ensures Valid()
      ensures listaEventos == old(listaEventos)
      ensures textoMostrado == Render(listaEventos)
      ensures textoMostrado == Render(Filter(listaEventos, ""))
    {
      UpdateEventList(listaEventos);
      FilterEmptyKeepsAll(listaEventos);
    }
  }

  /** Two saves, then sort and clear: what a caller can conclude from the contracts alone. */
  method SaveSortClearScenario(a: string, b: string)
    requires a != "" && b != ""
  {
    var store := new EventStore();
    store.SaveClicked("beta", b, "", "id-1");
    store.SaveClicked("", a, "x", "id-2");
    store.SaveClicked("alpha", a, "first", "id-3");
    var beta := Evento("id-1", "beta", b, None);
    var alpha := Evento("id-3", "alpha", a, Some("first"));
    assert store.listaEventos == [beta, alpha];
    store.SortClicked();
    assert store.listaEventos == [beta, alpha];
    store.ClearClicked();
    RenderAppend([beta], [alpha]);
    assert store.textoMostrado == Block(beta) + Separator + Block(alpha);
  }
}
