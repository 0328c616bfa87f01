/** apps/admin-dashboard/src/components/MilkDeliveryGrid.tsx: the stops and litres of
    today's route, over exact numbers. `parse` stands for parseQuantityLiters. */
module MilkStats {
  import opened JsText

  // ----- the litres of one cell -----

  type Parser = string -> Option<real>

  ghost predicate NeverNegative(parse: Parser) {
    forall s :: parse(s).Some? ==> parse(s).value >= 0.0
  }

  function Litres(parse: Parser, s: string): real {
    if parse(s).Some? then parse(s).value else 0.0
  }

  /** `s.split(',')`. */
  function Split(s: string): (parts: seq<string>)
    ensures parts != []
  {
    if s == "" then [""]
    else
      var rest := Split(s[1..]);
      if s[0] == ',' then [""] + rest else [[s[0]] + rest[0]] + rest[1..]
  }

  function SumParts(parse: Parser, parts: seq<string>): real {
    if parts == [] then 0.0 else Litres(parse, parts[0]) + SumParts(parse, parts[1..])
  }

  function AddOnLiters(parse: Parser, extraMilk: Option<string>): real {
    if extraMilk.None? || extraMilk.value == "" then 0.0 else SumParts(parse, Split(extraMilk.value))
  }

  /** The server's form of several add-ons. */
  function Joined(parts: seq<string>): string
    requires parts != []
  {
    if |parts| == 1 then parts[0] else parts[0] + ", " + Joined(parts[1..])
  }

  lemma {:induction false} SplitOne(part: string)
    requires ',' !in part
    ensures Split(part) == [part]
    decreases |part|
  {
    if part != "" {
      SplitOne(part[1..]);
      assert part == [part[0]] + part[1..];
    }
  }

  lemma {:induction false} SplitFirst(part: string, rest: string)
    requires ',' !in part
    ensures Split(part + "," + rest) == [part] + Split(rest)
    decreases |part|
  {
    var s := part + "," + rest;
    if part == "" {
      assert s[0] == ',' && s[1..] == rest;
    } else {
      assert s[0] == part[0] && s[1..] == part[1..] + "," + rest;
      SplitFirst(part[1..], rest);
      assert part == [part[0]] + part[1..];
    }
  }

  ghost predicate AreLabels(parts: seq<string>) {
    forall i :: 0 <= i < |parts| ==> ',' !in parts[i]
  }

  ghost predicate IgnoresLeadingSpace(parse: Parser) {
    forall s :: parse(" " + s) == parse(s)
  }

  lemma SpaceIgnored(parse: Parser, s: string)
    requires IgnoresLeadingSpace(parse)
    ensures Litres(parse, " " + s) == Litres(parse, s)
  {}

  lemma SumFirst(parse: Parser, part: string, rest: seq<string>)
    ensures SumParts(parse, [part] + rest) == Litres(parse, part) + SumParts(parse, rest)
  {}

  lemma {:induction false} SplitSpaced(parse: Parser, parts: seq<string>)
    requires parts != [] && AreLabels(parts)
    requires IgnoresLeadingSpace(parse)
    ensures SumParts(parse, Split(" " + Joined(parts))) == SumParts(parse, parts)
    decreases |parts|
  {
    hide Split, IgnoresLeadingSpace, SumParts;
    var first, others := parts[0], parts[1..];
    SpaceIgnored(parse, first);
    assert parts == [first] + others;
    SumFirst(parse, first, others);
    if |parts| == 1 {
      SplitOne(" " + first);
      assert [" " + first] == [" " + first] + others;
      SumFirst(parse, " " + first, others);
    } else {
      var rest := " " + Joined(others);
      assert " " + Joined(parts) == (" " + first) + "," + rest;
      SplitFirst(" " + first, rest);
      SumFirst(parse, " " + first, Split(rest));
      SplitSpaced(parse, others);
    }
  }

  lemma JoinedParts(parts: seq<string>)
    requires |parts| > 1
    ensures Joined(parts) == parts[0] + "," + (" " + Joined(parts[1..]))
  {}

  /** The litres of a cell's joined add-ons are the litres of the add-ons, added up; labels
      are taken to read the same with a space in front. */
  lemma JoinedLitresAdd(parse: Parser, parts: seq<string>)
    requires parts != [] && AreLabels(parts) && IgnoresLeadingSpace(parse) && parse("") == None
    ensures AddOnLiters(parse, Some(Joined(parts))) == SumParts(parse, parts)
  {
    var first, others := parts[0], parts[1..];
    assert ',' !in first && AreLabels(others);
    hide Split, IgnoresLeadingSpace, SumParts, AreLabels;
    assert parts == [first] + others;
    SumFirst(parse, first, others);
    if |parts| == 1 {
      SplitOne(first);
    } else {
      JoinedParts(parts);
      hide Joined;
      var rest := " " + Joined(others);
      SplitFirst(first, rest);
      SumFirst(parse, first, Split(rest));
      SplitSpaced(parse, others);
    }
  }

  /** Label by label: what stands before the first comma is read on its own, a label that
      carries no volume counts as nothing, and so does an absent cell. */
  lemma AddOnsRead(parse: Parser, part: string, rest: string)
    requires ',' !in part && parse("") == None
    ensures var first := if parse(part).Some? then parse(part).value else 0.0;
            && AddOnLiters(parse, Some(part)) == first
            && AddOnLiters(parse, Some(part + "," + rest)) == first + AddOnLiters(parse, Some(rest))
    ensures AddOnLiters(parse, None) == 0.0
  {
    SplitOne(part);
    SplitOne("");
    SplitFirst(part, rest);
    var none: seq<string> := [];
    assert [part] + none == [part] && [""] + none == [""];
    SumFirst(parse, part, none);
    SumFirst(parse, "", none);
    SumFirst(parse, part, Split(rest));
  }

  lemma {:induction false} SumNotNegative(parse: Parser, parts: seq<string>)
    requires NeverNegative(parse)
    ensures SumParts(parse, parts) >= 0.0
    decreases |parts|
  {
    if parts != [] {
      SumNotNegative(parse, parts[1..]);
    }
  }

  // ----- the route -----

  datatype Status = Delivered | Skipped | Cancelled | OtherStatus

  datatype Cell = Cell(status: Status, baseQuantity: string, extraMilk: Option<string>, cashCollectedPaise: int)

  function CellLitres(parse: Parser, c: Cell): real {
    Litres(parse, c.baseQuantity) + AddOnLiters(parse, c.extraMilk)
  }

  datatype Stats = Stats(
    totalStops: nat, deliveredStops: nat, pendingStops: int,
    totalLiters: real, soldLiters: real, leftLiters: real, cashCollected: int)

  /** `Math.round(n * 1000) / 1000`. */
  function Round3(n: real): real { (n * 1000.0 + 0.5).Floor as real / 1000.0 }

  /** Today's cells that are stops: neither missing nor skipped nor cancelled. */
  ghost function Stops(cells: seq<Option<Cell>>): seq<Cell> {
    if cells == [] then [] else
    var last := cells[|cells| - 1];
    Stops(cells[..|cells| - 1]) +
    if last.None? || last.value.status == Skipped || last.value.status == Cancelled then [] else [last.value]
  }

  ghost function WithStatus(cells: seq<Cell>, delivered: bool): seq<Cell> {
    if cells == [] then [] else
    var last := cells[|cells| - 1];
    WithStatus(cells[..|cells| - 1], delivered) + if (last.status == Delivered) == delivered then [last] else []
  }

  ghost function TotalLitres(parse: Parser, cells: seq<Cell>): (sum: real) {
    if cells == [] then 0.0
    else TotalLitres(parse, cells[..|cells| - 1]) + CellLitres(parse, cells[|cells| - 1])
  }

  ghost function TotalCash(cells: seq<Cell>): int {
    if cells == [] then 0 else TotalCash(cells[..|cells| - 1]) + cells[|cells| - 1].cashCollectedPaise
  }

  lemma StopAppended(parse: Parser, stops: seq<Cell>, c: Cell)
    ensures TotalLitres(parse, stops + [c]) == TotalLitres(parse, stops) + CellLitres(parse, c)
    ensures TotalCash(stops + [c]) == TotalCash(stops) + c.cashCollectedPaise
    ensures WithStatus(stops + [c], c.status == Delivered) == WithStatus(stops, c.status == Delivered) + [c]
    ensures WithStatus(stops + [c], c.status != Delivered) == WithStatus(stops, c.status != Delivered)
  {}

  /** Delivered and pending stops make up the route, and so do their litres. */
  lemma {:induction false} StopsPartition(parse: Parser, stops: seq<Cell>)
    ensures |WithStatus(stops, true)| + |WithStatus(stops, false)| == |stops|
    ensures TotalLitres(parse, WithStatus(stops, true)) + TotalLitres(parse, WithStatus(stops, false))
            == TotalLitres(parse, stops)
    decreases |stops|
  {
    hide CellLitres;
    if stops != [] {
      var front, last := stops[..|stops| - 1], stops[|stops| - 1];
      StopsPartition(parse, front);
      assert stops == front + [last];
      StopAppended(parse, front, last);
      StopAppended(parse, WithStatus(front, last.status == Delivered), last);
    }
  }

  lemma {:induction false} LitresNotNegative(parse: Parser, cells: seq<Cell>)
    requires NeverNegative(parse)
    ensures TotalLitres(parse, cells) >= 0.0
    decreases |cells|
  {
    if cells != [] {
      var last := cells[|cells| - 1];
      LitresNotNegative(parse, cells[..|cells| - 1]);
      if last.extraMilk.Some? {
        SumNotNegative(parse, Split(last.extraMilk.value));
      }
    }
  }

  /** A multiple of a thousandth within half a thousandth, ties upwards. */
  lemma RoundsToNearest(n: real)
    ensures -0.0005 < Round3(n) - n <= 0.0005
    ensures (Round3(n) * 1000.0).Floor as real == Round3(n) * 1000.0
  {}

  /** What one more cell does to the route's figures: a missing, skipped or cancelled one
      nothing, any other is a stop with its base litres, its add-ons and its cash. */
  lemma OneMoreCell(parse: Parser, cells: seq<Option<Cell>>, cell: Option<Cell>)
    ensures var (before, after) := (Stops(cells), Stops(cells + [cell]));
            if cell.None? || cell.value.status == Skipped || cell.value.status == Cancelled then after == before
            else
              var c, base := cell.value, parse(cell.value.baseQuantity);
              var litres := (if base.Some? then base.value else 0.0) + AddOnLiters(parse, c.extraMilk);
              var delivered := c.status == Delivered;
              && |after| == |before| + 1
              && |WithStatus(after, true)| == |WithStatus(before, true)| + (if delivered then 1 else 0)
              && TotalLitres(parse, after) == TotalLitres(parse, before) + litres
              && TotalLitres(parse, WithStatus(after, true))
                 == TotalLitres(parse, WithStatus(before, true)) + (if delivered then litres else 0.0)
              && TotalCash(after) == TotalCash(before) + c.cashCollectedPaise
    ensures Stops([]) == []
  {
    assert (cells + [cell])[..|cells|] == cells;
    if cell.Some? && cell.value.status != Skipped && cell.value.status != Cancelled {
      var c, before := cell.value, Stops(cells);
      StopAppended(parse, before, c);
      StopAppended(parse, WithStatus(before, true), c);
      hide TotalLitres, TotalCash, WithStatus, AddOnLiters;
    }
  }

  /** Rounding to thousandths twice differs from rounding the sum by at most one thousandth. */
  lemma RoundingGap(a: real, b: real)
    ensures -0.001 <= Round3(a) + Round3(b) - Round3(a + b) <= 0.001
  {
    var x, y := a * 1000.0 + 0.5, b * 1000.0 + 0.5;
    var z := (a + b) * 1000.0 + 0.5;
    assert z == x + y - 0.5;
    var gap := x.Floor + y.Floor - z.Floor;
    assert -1 <= gap <= 1;
    assert Round3(a) + Round3(b) - Round3(a + b) == gap as real / 1000.0;
  }

  method TodayStats(parse: Parser, cells: seq<Option<Cell>>) returns (s: Stats)
    requires NeverNegative(parse)
    ensures var stops := Stops(cells);
            var sold, left := TotalLitres(parse, WithStatus(stops, true)), TotalLitres(parse, WithStatus(stops, false));
            && s.totalStops == |stops| && s.deliveredStops == |WithStatus(stops, true)|
            && s.pendingStops == |WithStatus(stops, false)|
            && s.totalLiters == Round3(TotalLitres(parse, stops))
            && s.soldLiters == Round3(sold) && s.leftLiters == Round3(left)
            && s.cashCollected == TotalCash(stops)
    ensures s.totalStops == s.deliveredStops + s.pendingStops
    ensures -0.001 <= s.soldLiters + s.leftLiters - s.totalLiters <= 0.001
  {
    hide CellLitres, TotalLitres, TotalCash, WithStatus, Round3;
    var stops, delivered, cash := 0, 0, 0;
    var liters, sold := 0.0, 0.0;
    NoStops(parse);
    for i := 0 to |cells|
      invariant stops == |Stops(cells[..i])| && delivered == |WithStatus(Stops(cells[..i]), true)|
      invariant cash == TotalCash(Stops(cells[..i])) && liters == TotalLitres(parse, Stops(cells[..i]))
      invariant sold == TotalLitres(parse, WithStatus(Stops(cells[..i]), true))
    {
      assert cells[..i + 1][..i] == cells[..i];
      var c := cells[i];
      if c.None? || c.value.status == Skipped || c.value.status == Cancelled {
        assert Stops(cells[..i + 1]) == Stops(cells[..i]);
        continue;
      }
      StopAppended(parse, Stops(cells[..i]), c.value);
      StopAppended(parse, WithStatus(Stops(cells[..i]), true), c.value);
      stops := stops + 1;
      if c.value.status == Delivered {
        delivered := delivered + 1;
      }
      cash := cash + c.value.cashCollectedPaise;
      var cellLiters := CellLitres(parse, c.value);
      liters := liters + cellLiters;
      if c.value.status == Delivered {
        sold := sold + cellLiters;
      }
    }
    assert cells[..|cells|] == cells;
    StopsPartition(parse, Stops(cells));
    LitresNotNegative(parse, WithStatus(Stops(cells), false));
    RoundingGap(sold, liters - sold);
    s := Stats(stops, delivered, stops - delivered, Round3(liters), Round3(sold),
               Round3(if liters - sold < 0.0 then 0.0 else liters - sold), cash);
  }

  lemma NoStops(parse: Parser)
    ensures WithStatus([], true) == [] && TotalLitres(parse, []) == 0.0 && TotalCash([]) == 0
  {}
}
