/**
 * The derived views the screen shows: the filtered list, the list sorted by
 * date, and the text block rendered for a list. None of them changes the
 * list it is given.
 */
module EventViews {
  import opened Wrappers
  import opened Strings
  import opened Events

  // ---------------------------------------------------------------------------
  // Filter: `listaEventos.filter { it.titulo.contains(filtro, ignoreCase = true) }`
  // ---------------------------------------------------------------------------

  predicate TitleMatches(e: Evento, filtro: string)
  {
    ContainsIgnoreCase(e.titulo, filtro)
  }

  /** Visits the events in order and appends each one whose title matches. */
  function Filter(events: seq<Evento>, filtro: string): (r: seq<Evento>)
    ensures |r| <= |events|
    ensures forall e :: e in r ==> e in events && TitleMatches(e, filtro)
  {
    if |events| == 0 then []
    else
      var last := events[|events| - 1];
      Filter(events[..|events| - 1], filtro) + (if TitleMatches(last, filtro) then [last] else [])
  }

  /** The positions of the matching events, in increasing order. */
  ghost function MatchingIndices(events: seq<Evento>, filtro: string): seq<int>
  {
    if |events| == 0 then []
    else
      var n := |events| - 1;
      MatchingIndices(events[..n], filtro) + (if TitleMatches(events[n], filtro) then [n] else [])
  }

  /**
   * The filter result is the subsequence of `events` at the positions, in
   * increasing order, of exactly the events whose title matches.
   */
  lemma {:induction false} FilterIsMatchingSubsequence(events: seq<Evento>, filtro: string)
    ensures var r, idx := Filter(events, filtro), MatchingIndices(events, filtro);
      && |idx| == |r|
      && (forall k :: 0 <= k < |idx| ==> 0 <= idx[k] < |events| && r[k] == events[idx[k]])
      && (forall k1, k2 :: 0 <= k1 < k2 < |idx| ==> idx[k1] < idx[k2])
      && (forall i :: 0 <= i < |events| ==> (i in idx <==> TitleMatches(events[i], filtro)))
  {
    if |events| > 0 {
      var n := |events| - 1;
      var pre := events[..n];
      FilterIsMatchingSubsequence(pre, filtro);
      assert forall i :: 0 <= i < n ==> pre[i] == events[i];
    }
  }

  /** Filtering with the empty text shows every event, in order. */
  lemma {:induction false} FilterEmptyKeepsAll(events: seq<Evento>)
    ensures Filter(events, "") == events
  {
    if |events| > 0 {
      var n := |events| - 1;
      FilterEmptyKeepsAll(events[..n]);
      ContainsEmpty(events[n].titulo);
      assert events == events[..n] + [events[n]];
    }
  }

  /** Filtering a filtered list again changes nothing. */
  lemma {:induction false} FilterIdempotent(events: seq<Evento>, filtro: string)
    ensures Filter(Filter(events, filtro), filtro) == Filter(events, filtro)
  {
    if |events| > 0 {
      var n := |events| - 1;
      var last := events[n];
      FilterIdempotent(events[..n], filtro);
      FilterAppend(Filter(events[..n], filtro), if TitleMatches(last, filtro) then [last] else [], filtro);
    }
  }

  /** Case is ignored: "meet" selects "Meeting". */
  lemma FilterIgnoresCaseExample(id: string, fecha: string)
    ensures var m := Evento(id, "Meeting", fecha, None);
      Filter([m], "meet") == [m]
  {
    var m := Evento(id, "Meeting", fecha, None);
    assert StartsWithIgnoreCase("Meeting", "meet") by {
      assert CharEqualsIgnoreCase('M', 'm');
    }
    assert TitleMatches(m, "meet");
    assert [m][..0] == [];
  }

  /** Filtering distributes over concatenation. */
  lemma {:induction false} FilterAppend(a: seq<Evento>, b: seq<Evento>, filtro: string)
    ensures Filter(a + b, filtro) == Filter(a, filtro) + Filter(b, filtro)
  {
    if |b| == 0 {
      assert a + b == a;
    } else {
      var n := |b| - 1;
      assert (a + b)[..|a + b| - 1] == a + b[..n];
      FilterAppend(a, b[..n], filtro);
    }
  }

  // ---------------------------------------------------------------------------
  // Sort: `listaEventos.sortedBy { it.fecha }`, a stable ascending sort under
  // String.compareTo.
  // ---------------------------------------------------------------------------

  predicate SortedByFecha(s: seq<Evento>)
  {
    forall i, j :: 0 <= i < j < |s| ==> LexLe(s[i].fecha, s[j].fecha)
  }

  /** The events of `s` whose date is exactly `fecha`, in their order in `s`. */
  function WithFecha(s: seq<Evento>, fecha: string): seq<Evento>
  {
    if |s| == 0 then [] else (if s[0].fecha == fecha then [s[0]] else []) + WithFecha(s[1..], fecha)
  }

  /** Every event with the same date keeps its relative order from `s` in `t`. */
  ghost predicate KeepsOrderOfEqualDates(s: seq<Evento>, t: seq<Evento>)
  {
    forall fecha :: WithFecha(t, fecha) == WithFecha(s, fecha)
  }

  /** Puts `x` before the first event whose date is not smaller than its own. */
  function InsertByFecha(x: Evento, sorted: seq<Evento>): seq<Evento>
  {
    if |sorted| == 0 || LexLe(x.fecha, sorted[0].fecha) then [x] + sorted
    else [sorted[0]] + InsertByFecha(x, sorted[1..])
  }

  function SortByFecha(events: seq<Evento>): seq<Evento>
  {
    if |events| == 0 then [] else InsertByFecha(events[0], SortByFecha(events[1..]))
  }

  /** Inserting adds exactly `x`. */
  lemma {:induction false} InsertByFechaPermutation(x: Evento, sorted: seq<Evento>)
    ensures multiset(InsertByFecha(x, sorted)) == multiset(sorted) + multiset{x}
  {
    if |sorted| > 0 && !LexLe(x.fecha, sorted[0].fecha) {
      InsertByFechaPermutation(x, sorted[1..]);
      assert sorted == [sorted[0]] + sorted[1..];
    }
  }

  /** Every date in `s` is at least `fecha`. */
  ghost predicate DatesFrom(fecha: string, s: seq<Evento>)
  {
    forall i :: 0 <= i < |s| ==> LexLe(fecha, s[i].fecha)
  }

  /** A list is sorted when its head bounds the tail from below and the tail is sorted. */
  lemma ConsSorted(h: Evento, t: seq<Evento>)
    requires DatesFrom(h.fecha, t) && SortedByFecha(t)
    ensures SortedByFecha([h] + t)
  {
    var r := [h] + t;
    forall i, j | 0 <= i < j < |r| ensures LexLe(r[i].fecha, r[j].fecha) {
      if i > 0 {
        assert r[i] == t[i - 1] && r[j] == t[j - 1];
      } else {
        assert r[j] == t[j - 1];
      }
    }
  }

  lemma {:induction false} InsertByFechaSorted(x: Evento, sorted: seq<Evento>)
    requires SortedByFecha(sorted)
    ensures SortedByFecha(InsertByFecha(x, sorted))
  {
    if |sorted| == 0 {
    } else if LexLe(x.fecha, sorted[0].fecha) {
      forall i | 0 <= i < |sorted| ensures LexLe(x.fecha, sorted[i].fecha) {
        if i > 0 {
          LexLeTransitive(x.fecha, sorted[0].fecha, sorted[i].fecha);
        }
      }
      ConsSorted(x, sorted);
    } else {
      var head, rest := sorted[0], sorted[1..];
      LexLeTotal(x.fecha, head.fecha);
      assert SortedByFecha(rest);
      InsertByFechaSorted(x, rest);
      InsertByFechaPermutation(x, rest);
      var ins := InsertByFecha(x, rest);
      forall i | 0 <= i < |ins| ensures LexLe(head.fecha, ins[i].fecha) {
        var e := ins[i];
        assert e in multiset(ins);
        if e != x {
          assert e in multiset(rest);
          var k :| 0 <= k < |rest| && rest[k] == e;
          assert sorted[k + 1] == e;
        }
      }
      ConsSorted(head, ins);
    }
  }

  /** The sorted view is a permutation of the list, non-decreasing by date. */
  lemma {:induction false} SortByFechaSortedPermutation(events: seq<Evento>)
    ensures SortedByFecha(SortByFecha(events))
    ensures multiset(SortByFecha(events)) == multiset(events)
  {
    if |events| > 0 {
      SortByFechaSortedPermutation(events[1..]);
      InsertByFechaSorted(events[0], SortByFecha(events[1..]));
      InsertByFechaPermutation(events[0], SortByFecha(events[1..]));
      assert events == [events[0]] + events[1..];
    }
  }

  /** The events with date `fecha` are events of `s` with that date. */
  lemma {:induction false} WithFechaElements(s: seq<Evento>, fecha: string)
    ensures forall e :: e in WithFecha(s, fecha) ==> e in s && e.fecha == fecha
  {
    if |s| > 0 {
      WithFechaElements(s[1..], fecha);
    }
  }

  /** Inserting into a sorted list puts `x` before every event with its date. */
  lemma {:induction false} InsertByFechaWithFecha(x: Evento, sorted: seq<Evento>, fecha: string)
    requires SortedByFecha(sorted)
    ensures WithFecha(InsertByFecha(x, sorted), fecha)
            == (if x.fecha == fecha then [x] else []) + WithFecha(sorted, fecha)
  {
    if |sorted| == 0 || LexLe(x.fecha, sorted[0].fecha) {
      var r := [x] + sorted;
      assert InsertByFecha(x, sorted) == r;
      assert r[0] == x && r[1..] == sorted;
    } else {
      var head, rest := sorted[0], sorted[1..];
      assert SortedByFecha(rest);
      InsertByFechaWithFecha(x, rest, fecha);
      var ins := InsertByFecha(x, rest);
      var r := [head] + ins;
      assert InsertByFecha(x, sorted) == r;
      assert r[0] == head && r[1..] == ins;
      assert WithFecha(r, fecha) == (if head.fecha == fecha then [head] else []) + WithFecha(ins, fecha);
      assert WithFecha(sorted, fecha) == (if head.fecha == fecha then [head] else []) + WithFecha(rest, fecha);
      // head's date is below x's, so head and x are never both selected
      assert x.fecha == fecha ==> head.fecha != fecha by {
        LexLeReflexive(x.fecha);
      }
    }
  }

  /** Stability: events with equal dates keep their insertion order. */
  lemma {:induction false} SortByFechaStable(events: seq<Evento>)
    ensures KeepsOrderOfEqualDates(events, SortByFecha(events))
  {
    if |events| > 0 {
      SortByFechaStable(events[1..]);
      SortByFechaSortedPermutation(events[1..]);
      forall fecha ensures WithFecha(SortByFecha(events), fecha) == WithFecha(events, fecha) {
        InsertByFechaWithFecha(events[0], SortByFecha(events[1..]), fecha);
      }
    }
  }

  /** In a date-sorted list, every date that occurs is at least the head's. */
  lemma HeadDateIsLeast(t: seq<Evento>, fecha: string)
    requires SortedByFecha(t) && |t| > 0
    requires WithFecha(t, fecha) != []
    ensures LexLe(t[0].fecha, fecha)
  {
    WithFechaElements(t, fecha);
    var e := WithFecha(t, fecha)[0];
    assert e in t;
    var i :| 0 <= i < |t| && t[i] == e;
    if i == 0 {
      LexLeReflexive(fecha);
    }
  }

  /** Two date-sorted lists with the same events per date, in the same order, are equal. */
  lemma {:induction false} SortedSameDateOrderEqual(t1: seq<Evento>, t2: seq<Evento>)
    requires SortedByFecha(t1) && SortedByFecha(t2)
    requires KeepsOrderOfEqualDates(t1, t2)
    ensures t1 == t2
    decreases |t1|
  {
    if |t1| > 0 {
      assert WithFecha(t2, t1[0].fecha) == WithFecha(t1, t1[0].fecha);
    }
    if |t2| > 0 {
      assert WithFecha(t2, t2[0].fecha) == WithFecha(t1, t2[0].fecha);
    }
    if |t1| > 0 && |t2| > 0 {
      var a, b := t1[0], t2[0];
      assert WithFecha(t2, a.fecha) == WithFecha(t1, a.fecha);
      HeadDateIsLeast(t2, a.fecha);
      HeadDateIsLeast(t1, b.fecha);
      LexLeAntisymmetric(a.fecha, b.fecha);
      var r1, r2 := t1[1..], t2[1..];
      assert WithFecha(t1, a.fecha) == [a] + WithFecha(r1, a.fecha);
      assert WithFecha(t2, a.fecha) == [b] + WithFecha(r2, a.fecha);
      assert WithFecha(t1, a.fecha)[0] == a && WithFecha(t2, a.fecha)[0] == b;
      assert SortedByFecha(r1) && SortedByFecha(r2);
      forall fecha ensures WithFecha(r2, fecha) == WithFecha(r1, fecha) {
        assert WithFecha(t2, fecha) == WithFecha(t1, fecha);
        if fecha == a.fecha {
          assert WithFecha(t1, fecha)[1..] == WithFecha(r1, fecha);
          assert WithFecha(t2, fecha)[1..] == WithFecha(r2, fecha);
        } else {
          assert WithFecha(t1, fecha) == WithFecha(r1, fecha);
          assert WithFecha(t2, fecha) == WithFecha(r2, fecha);
        }
      }
      SortedSameDateOrderEqual(r1, r2);
      assert t1 == [a] + r1 && t2 == [b] + r2;
    }
  }

  /**
   * The sorted view is the only list that is sorted by date and keeps the
   * order of events with equal dates: any stable sort gives the same result.
   */
  lemma SortByFechaCharacterized(events: seq<Evento>, t: seq<Evento>)
    ensures t == SortByFecha(events) <==> SortedByFecha(t) && KeepsOrderOfEqualDates(events, t)
  {
    SortByFechaSortedPermutation(events);
    SortByFechaStable(events);
    if SortedByFecha(t) && KeepsOrderOfEqualDates(events, t) {
      SortedSameDateOrderEqual(SortByFecha(events), t);
    }
  }

  // ---------------------------------------------------------------------------
  // Rendering: `actualizarListaEventos`.
  // ---------------------------------------------------------------------------

  const NoMatchMessage := "No hay eventos que coincidan."
  const Separator := "\n\n"
  const TitlePrefix := "Título: "

  /** The description, or "Sin descripción" when it is null. */
  function DescripcionShown(e: Evento): string
  {
    e.descripcion.GetOr("Sin descripción")
  }

  /** The block for one event: three labelled lines. */
  function Block(e: Evento): string
  {
    TitlePrefix + e.titulo + "\nFecha: " + e.fecha + "\nDescripción: " + DescripcionShown(e)
  }

  /** `joinToString(separator = "\n\n")` over the blocks. */
  function JoinBlocks(events: seq<Evento>): string
  {
    if |events| == 0 then ""
    else if |events| == 1 then Block(events[0])
    else Block(events[0]) + Separator + JoinBlocks(events[1..])
  }

  lemma {:induction false} JoinBlocksStartsWithTitle(events: seq<Evento>)
    requires |events| > 0
    ensures |JoinBlocks(events)| >= |TitlePrefix| && JoinBlocks(events)[..|TitlePrefix|] == TitlePrefix
  {
    var b := Block(events[0]);
    assert b[..|TitlePrefix|] == TitlePrefix;
  }

  /**
   * The text of the list view: the fixed message exactly for the empty list,
   * otherwise the blocks, which start with the title label.
   */
  function Render(events: seq<Evento>): (r: string)
    ensures r == NoMatchMessage <==> |events| == 0
    ensures |events| > 0 ==> |r| >= |TitlePrefix| && r[..|TitlePrefix|] == TitlePrefix
  {
    if |events| == 0 then NoMatchMessage
    else
      JoinBlocksStartsWithTitle(events);
      assert NoMatchMessage[0] != TitlePrefix[0];
      JoinBlocks(events)
  }

  /** One event renders as its block. */
  lemma RenderSingle(e: Evento)
    ensures Render([e]) == Block(e)
  {
  }

  /** Rendering a concatenation joins the two renderings with a blank line. */
  lemma {:induction false} RenderAppend(a: seq<Evento>, b: seq<Evento>)
    requires |a| > 0 && |b| > 0
    ensures Render(a + b) == Render(a) + Separator + Render(b)
  {
    if |a| == 1 {
      assert (a + b)[0] == a[0] && (a + b)[1..] == b;
    } else {
      RenderAppend(a[1..], b);
      assert (a + b)[0] == a[0] && (a + b)[1..] == a[1..] + b;
    }
  }
}
