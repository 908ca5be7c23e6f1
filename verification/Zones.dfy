/** Conditional-forward zones: the snapshot build and most-specific-zone matching. */
module Zones {
  import opened Wire
  import opened Names
  import opened NameText
  import opened Suffix

  /** A stored row; both columns are text, and the target may be absent. */
  datatype ZoneRow = ZoneRow(suffix: Text, target: Option<Text>)

  /** Parsing a target text as an address with a port is not modelled: any partial function. */
  type TargetParser<T> = Text -> Option<T>

  function TargetOf<T>(parse: TargetParser<T>, row: ZoneRow): Option<T> {
    match row.target
    case None => None
    case Some(text) => parse(text)
  }

  predicate Usable<T>(parse: TargetParser<T>, row: ZoneRow) {
    TargetOf(parse, row).Some? && FromStr(row.suffix).Ok?
  }

  /** The zone map after the rows, taken in order. */
  function ZonesOf<T>(parse: TargetParser<T>, rows: seq<ZoneRow>): map<Text, T> {
    if rows == [] then map[] else
    var init, last := ZonesOf(parse, rows[..|rows| - 1]), rows[|rows| - 1];
    if Usable(parse, last) then init[FromStr(last.suffix).value := TargetOf(parse, last).value] else init
  }

  datatype ForwardZoneSet<T, F> = ForwardZoneSet(zones: map<Text, T>, forwarders: map<T, F>) {
    ghost predicate Valid() {
      forwarders.Keys == zones.Values && forall z :: z in zones ==> IsName(z)
    }

    function Target(qname: Text): Option<T> {
      if Labels(qname) == [] then
        if qname in zones then Some(zones[qname]) else None
      else Longest(zones, Labels(qname))
    }

    method MatchTarget(qname: Text) returns (r: Option<T>)
      requires IsName(qname)
      ensures r == Target(qname)
    {
      hide FirstDot, Split;
      ghost var ls := Labels(qname);
      GoodLabelNoDots(ls);
      if zones == map[] {
        LongestInEmpty(zones, ls);
        return None;
      }
      ghost var want := Target(qname);
      var search := qname;
      while true
        invariant NoDots(ls)
        invariant if ls == [] then search == [DOT] && want == (if search in zones then Some(zones[search]) else None)
                  else search == Dotted(ls) && want == Longest(zones, ls)
        decreases |search|
      {
        if search in zones {
          return Some(zones[search]);
        }
        var pos := FirstDot(search);
        ghost var before := ls;
        if ls == [] {
          FirstDotOfRoot();
        } else {
          StripLabel(ls);
          ls := ls[1..];
        }
        if pos == |search| {
          return None;
        }
        search := search[pos + 1..];
        if before != [] && ls != [] {
          StripLabel(ls);
        }
        if search == [] || search == [DOT] {
          return None;
        }
      }
    }

    /** `connect(target)` stands for opening a pool; it is called once per distinct target. */
    static method Build(parse: TargetParser<T>, rows: seq<ZoneRow>, connect: T -> F) returns (s: ForwardZoneSet<T, F>)
      ensures s.Valid() && s.zones == ZonesOf(parse, rows)
      ensures forall t :: t in s.forwarders ==> s.forwarders[t] == connect(t)
    {
      hide IsName, FromStr;
      var zones: map<Text, T> := map[];
      assert rows[..0] == [];
      for i := 0 to |rows|
        invariant zones == ZonesOf(parse, rows[..i])
        invariant forall z :: z in zones ==> IsName(z)
      {
        assert rows[..i + 1][..i] == rows[..i];
        var row := rows[i];
        var target := TargetOf(parse, row);
        if target.None? {
          continue;
        }
        var suffix := ParseName(row.suffix);
        if suffix.Err? {
          continue;
        }
        FromStrIsName(row.suffix);
        zones := zones[suffix.value := target.value];
      }
      assert rows[..|rows|] == rows;
      var forwarders: map<T, F> := map[];
      var left := zones.Keys;
      while left != {}
        invariant left <= zones.Keys
        invariant forwarders.Keys <= zones.Values
        invariant forall z :: z in zones && z !in left ==> zones[z] in forwarders
        invariant forall t :: t in forwarders ==> forwarders[t] == connect(t)
        decreases left
      {
        var z :| z in left;
        left := left - {z};
        if zones[z] in forwarders {
          continue;
        }
        forwarders := forwarders[zones[z] := connect(zones[z])];
      }
      s := ForwardZoneSet(zones, forwarders);
    }
  }

  /** Row `i` has a target that parses and names this zone. */
  ghost predicate NamesZone<T>(parse: TargetParser<T>, rows: seq<ZoneRow>, zone: Text, i: nat) {
    && i < |rows| && rows[i].target.Some? && parse(rows[i].target.value).Some?
    && FromStr(rows[i].suffix) == Ok(zone)
  }

  /** Row `i` names this zone, and no row after it does. */
  ghost predicate DecidedBy<T>(parse: TargetParser<T>, rows: seq<ZoneRow>, zone: Text, i: nat) {
    NamesZone(parse, rows, zone, i) && forall j: nat :: i < j < |rows| ==> !NamesZone(parse, rows, zone, j)
  }

  function Find<T>(m: map<Text, T>, zone: Text): Option<T> {
    if zone in m then Some(m[zone]) else None
  }

  lemma ZoneAfterRow<T>(parse: TargetParser<T>, rows: seq<ZoneRow>, zone: Text)
    requires rows != []
    ensures var n := |rows| - 1;
            Find(ZonesOf(parse, rows), zone) ==
            if NamesZone(parse, rows, zone, n) then TargetOf(parse, rows[n]) else Find(ZonesOf(parse, rows[..n]), zone)
    ensures NamesZone(parse, rows, zone, |rows| - 1) ==> TargetOf(parse, rows[|rows| - 1]).Some?
  {
    hide FromStr;
    assert Usable(parse, rows[|rows| - 1]) && FromStr(rows[|rows| - 1].suffix).value == zone <==>
           NamesZone(parse, rows, zone, |rows| - 1);
  }

  lemma TargetOfRow<T>(parse: TargetParser<T>, rows: seq<ZoneRow>, zone: Text, i: nat)
    requires NamesZone(parse, rows, zone, i)
    ensures rows[i].target.Some? && TargetOf(parse, rows[i]) == parse(rows[i].target.value)
  {
  }

  lemma RowsInRange<T>(parse: TargetParser<T>, rows: seq<ZoneRow>, zone: Text)
    ensures forall i: nat :: NamesZone(parse, rows, zone, i) ==> i < |rows|
    ensures rows == [] ==> Find(ZonesOf(parse, rows), zone).None?
  {
  }

  lemma NamesInit<T>(parse: TargetParser<T>, rows: seq<ZoneRow>, zone: Text, i: nat)
    requires i + 1 < |rows|
    ensures NamesZone(parse, rows[..|rows| - 1], zone, i) == NamesZone(parse, rows, zone, i)
  {
  }

  /** A zone is in the map exactly when some usable row names it, and the last such row decides it. */
  lemma {:induction false} LastRowWins<T>(parse: TargetParser<T>, rows: seq<ZoneRow>, zone: Text)
    ensures Find(ZonesOf(parse, rows), zone).Some? <==> exists i: nat :: NamesZone(parse, rows, zone, i)
    ensures forall i: nat :: DecidedBy(parse, rows, zone, i) ==>
              Find(ZonesOf(parse, rows), zone) == parse(rows[i].target.value)
    decreases |rows|
  {
    hide NamesZone, ZonesOf, TargetOf, Find;
    RowsInRange(parse, rows, zone);
    if rows != [] {
      var n := |rows| - 1;
      LastRowWins(parse, rows[..n], zone);
      ZoneAfterRow(parse, rows, zone);
      RowsInRange(parse, rows[..n], zone);
      forall i: nat | i < n ensures NamesZone(parse, rows[..n], zone, i) == NamesZone(parse, rows, zone, i) {
        NamesInit(parse, rows, zone, i);
      }
      forall i: nat | DecidedBy(parse, rows, zone, i)
        ensures rows[i].target.Some? && Find(ZonesOf(parse, rows), zone) == parse(rows[i].target.value)
      {
        TargetOfRow(parse, rows, zone, i);
        if i < n {
          assert !NamesZone(parse, rows, zone, n);
          assert DecidedBy(parse, rows[..n], zone, i) && rows[..n][i] == rows[i];
          TargetOfRow(parse, rows[..n], zone, i);
        }
      }
    }
  }

  /**
   * Matching returns the target of the zone with the most labels among those whose labels end the
   * query name, the apex included; a root zone matches only the root name; and every returned
   * target has a forwarder.
   */
  lemma MatchExact<T, F>(s: ForwardZoneSet<T, F>, qname: Text)
    requires s.Valid() && IsName(qname) && qname != [DOT]
    ensures s.Target(qname).None? <==> forall z :: z in s.zones && z != [DOT] ==> !IsSuffix(Labels(z), Labels(qname))
    ensures s.Target(qname).Some? ==>
              exists z ::
                && z in s.zones && z != [DOT] && IsSuffix(Labels(z), Labels(qname))
                && s.Target(qname) == Some(s.zones[z])
                && forall y :: y in s.zones && y != [DOT] && IsSuffix(Labels(y), Labels(qname)) ==>
                     |Labels(y)| <= |Labels(z)|
    ensures s.Target(qname).Some? ==> s.Target(qname).value in s.forwarders
  {
    var ls := Labels(qname);
    GoodLabelNoDots(ls);
    LongestExact(s.zones, ls);
    forall z | z in s.zones && z != [DOT] ensures IsSuffix(Labels(z), ls) <==> Candidate(s.zones, ls, Labels(z)) {
      assert Dotted(Labels(z)) == z;
    }
    if s.Target(qname).Some? {
      var best :| Candidate(s.zones, ls, best) && Longest(s.zones, ls) == Some(s.zones[Dotted(best)]) &&
                  forall t :: Candidate(s.zones, ls, t) ==> |t| <= |best|;
      CandidateLabels(s.zones, ls, best);
      assert s.zones[Dotted(best)] in s.zones.Values;
    } else {
      forall z | z in s.zones && z != [DOT] ensures !IsSuffix(Labels(z), ls) {
        assert !Candidate(s.zones, ls, Labels(z));
      }
    }
  }

  lemma RootMatchesRootZoneOnly<T, F>(s: ForwardZoneSet<T, F>)
    requires s.Valid()
    ensures s.Target([DOT]) == if [DOT] in s.zones then Some(s.zones[[DOT]]) else None
    ensures s.Target([DOT]).Some? ==> s.Target([DOT]).value in s.forwarders
  {
    RootIsName();
    if [DOT] in s.zones {
      assert s.zones[[DOT]] in s.zones.Values;
    }
  }
}
