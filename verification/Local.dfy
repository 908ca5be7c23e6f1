/** Local records: exact names, wildcard suffixes and the reverse index. */
module Local {
  import opened Wire
  import opened Names
  import opened NameText
  import opened Messages
  import opened Reverse
  import opened Suffix

  datatype Rec = Rec(addr: IpAddr, ttl: u32)

  datatype LocalMatch = Answer(data: IpAddr, ttl: u32) | NameExistsNoData | Miss

  /** At most one A and one AAAA record per name. */
  datatype NameEntry = NameEntry(a: Option<Rec>, aaaa: Option<Rec>) {
    function Resolve(qtype: Qtype): LocalMatch {
      match qtype
      case A => if a.Some? then Answer(a.value.addr, a.value.ttl) else NameExistsNoData
      case Aaaa => if aaaa.Some? then Answer(aaaa.value.addr, aaaa.value.ttl) else NameExistsNoData
      case _ => NameExistsNoData
    }

    function Fill(data: IpAddr, ttl: u32): NameEntry {
      if data.V4? then this.(a := Some(Rec(data, ttl))) else this.(aaaa := Some(Rec(data, ttl)))
    }

    ghost predicate Valid() {
      (a.Some? ==> a.value.addr.V4?) && (aaaa.Some? ==> aaaa.value.addr.V6?)
    }
  }

  datatype Snapshot = Snapshot(exact: map<Text, NameEntry>, wildcard: map<Text, NameEntry>,
                               reverse: map<IpAddr, (Text, u32)>) {
    ghost predicate Valid() {
      && (forall n :: n in exact ==> IsName(n) && exact[n].Valid())
      && (forall n :: n in wildcard ==> IsName(n) && n != [DOT] && wildcard[n].Valid())
      && IsReverse(exact, exact.Keys, reverse)
    }

    /** The matching entry: the exact one, else the longest proper suffix among the wildcards. */
    function Find(qname: Text): Option<NameEntry> {
      if qname in exact then Some(exact[qname])
      else if Labels(qname) == [] then None
      else Longest(wildcard, Labels(qname)[1..])
    }

    method Lookup(qname: Text, qtype: Qtype) returns (r: LocalMatch)
      requires IsName(qname)
      ensures r == if Find(qname).Some? then Find(qname).value.Resolve(qtype) else Miss
    {
      if qname in exact {
        return exact[qname].Resolve(qtype);
      }
      if wildcard == map[] {
        LongestInEmpty(wildcard, if Labels(qname) == [] then [] else Labels(qname)[1..]);
        return Miss;
      }
      hide FirstDot, Split;
      var search := qname;
      ghost var ls := Labels(qname);
      ghost var want := Find(qname);
      GoodLabelNoDots(ls);
      while FirstDot(search) < |search|
        invariant NoDots(ls)
        invariant if ls == [] then (search == [DOT] || search == []) && want == None
                  else search == Dotted(ls) && want == Longest(wildcard, ls[1..])
        decreases |search|
      {
        var dot := FirstDot(search);
        if ls != [] {
          StripLabel(ls);
          ls := ls[1..];
        } else {
          FirstDotOfRoot();
        }
        search := search[dot + 1..];
        if ls != [] {
          StripLabel(ls);
        }
        if search == [] || search == [DOT] {
          break;
        }
        if search in wildcard {
          return wildcard[search].Resolve(qtype);
        }
      }
      if ls != [] {
        StripLabel(ls);
      }
      return Miss;
    }

    method ReverseLookup(ip: IpAddr) returns (r: Option<(Text, u32)>)
      requires Valid()
      ensures r.Some? <==> exists n: Text, t: u32 :: Holds(exact, ip, n, t)
      ensures r.Some? ==> Holds(exact, ip, r.value.0, r.value.1)
      ensures r.Some? ==> forall n, t :: Holds(exact, ip, n, t) ==> n == r.value.0 || MoreCanonical(r.value.0, n)
    {
      r := if ip in reverse then Some(reverse[ip]) else None;
    }
  }

  /** `s` is the label list of a wildcard whose names include `ls`: a proper, non-empty suffix. */
  ghost predicate Covers(wildcard: map<Text, NameEntry>, key: Text, ls: seq<Text>) {
    key in wildcard && |Labels(key)| < |ls| && IsSuffix(Labels(key), ls)
  }

  /**
   * Lookup is longest-suffix matching on label lists: an exact entry wins; otherwise the covering
   * wildcard with the most labels; and the answer is Miss, for any type, only if there is neither.
   */
  lemma LookupExact(records: Snapshot, qname: Text)
    requires records.Valid() && IsName(qname)
    ensures qname in records.exact ==> records.Find(qname) == Some(records.exact[qname])
    ensures records.Find(qname).None? <==>
              qname !in records.exact && forall key :: !Covers(records.wildcard, key, Labels(qname))
    ensures qname !in records.exact && records.Find(qname).Some? ==>
              exists key ::
                && Covers(records.wildcard, key, Labels(qname)) && records.Find(qname) == Some(records.wildcard[key])
                && forall other :: Covers(records.wildcard, other, Labels(qname)) ==> |Labels(other)| <= |Labels(key)|
  {
    var ls := Labels(qname);
    GoodLabelNoDots(ls);
    if qname !in records.exact && ls != [] {
      var m, tail := records.wildcard, ls[1..];
      LongestExact(m, tail);
      forall key ensures Covers(m, key, ls) <==> Candidate(m, tail, Labels(key)) && Dotted(Labels(key)) == key {
        CoverIsCandidate(m, key, ls);
      }
      if records.Find(qname).Some? {
        var s :| Candidate(m, tail, s) && Longest(m, tail) == Some(m[Dotted(s)]) &&
                 forall t :: Candidate(m, tail, t) ==> |t| <= |s|;
        CandidateLabels(m, tail, s);
        assert Covers(m, Dotted(s), ls);
      }
    }
  }

  lemma CoverIsCandidate(m: map<Text, NameEntry>, key: Text, ls: seq<Text>)
    requires forall n :: n in m ==> IsName(n) && n != [DOT]
    requires ls != []
    ensures Covers(m, key, ls) <==> Candidate(m, ls[1..], Labels(key)) && Dotted(Labels(key)) == key
  {
    if Labels(key) != ls {
      SuffixTail(Labels(key), ls);
    }
    if key in m {
      assert Labels(key) != [];
    }
  }

  // The canonical-name order of the reverse index.

  function LexLess(x: Text, y: Text): bool {
    if x == [] then y != []
    else if y == [] then false
    else x[0] < y[0] || (x[0] == y[0] && LexLess(x[1..], y[1..]))
  }

  predicate MoreCanonical(c: Text, cur: Text) {
    |c| < |cur| || (|c| == |cur| && LexLess(c, cur))
  }

  lemma {:induction false} LexTotal(x: Text, y: Text)
    ensures x == y || LexLess(x, y) || LexLess(y, x)
    ensures !(LexLess(x, y) && LexLess(y, x))
    decreases |x|
  {
    if x != [] && y != [] {
      LexTotal(x[1..], y[1..]);
      assert x == [x[0]] + x[1..] && y == [y[0]] + y[1..];
    }
  }

  lemma {:induction false} LexTransitive(x: Text, y: Text, z: Text)
    requires LexLess(x, y) && LexLess(y, z)
    ensures LexLess(x, z)
    decreases |x|
  {
    if x != [] && x[0] == y[0] == z[0] {
      LexTransitive(x[1..], y[1..], z[1..]);
    }
  }

  lemma CanonicalTotal(x: Text, y: Text)
    ensures x == y || MoreCanonical(x, y) || MoreCanonical(y, x)
    ensures !(MoreCanonical(x, y) && MoreCanonical(y, x))
  {
    LexTotal(x, y);
  }

  lemma CanonicalTransitive(x: Text, y: Text, z: Text)
    requires MoreCanonical(x, y) && MoreCanonical(y, z)
    ensures MoreCanonical(x, z)
  {
    if |x| == |y| == |z| {
      LexTransitive(x, y, z);
    }
  }

  /** The exact name `n` has an A or AAAA record with this address and TTL. */
  ghost predicate Holds(exact: map<Text, NameEntry>, ip: IpAddr, n: Text, t: u32) {
    n in exact && (exact[n].a == Some(Rec(ip, t)) || exact[n].aaaa == Some(Rec(ip, t)))
  }

  /** `rev` is the reverse index of the records of `names`: complete, and least by (length, text). */
  ghost predicate IsReverse(exact: map<Text, NameEntry>, names: set<Text>, rev: map<IpAddr, (Text, u32)>) {
    && (forall ip :: ip in rev ==> rev[ip].0 in names && Holds(exact, ip, rev[ip].0, rev[ip].1))
    && (forall ip, n, t :: n in names && Holds(exact, ip, n, t) ==>
          ip in rev && (n == rev[ip].0 || MoreCanonical(rev[ip].0, n)))
  }

  lemma ReverseAgrees(exact: map<Text, NameEntry>, names: set<Text>, x: map<IpAddr, (Text, u32)>,
                      y: map<IpAddr, (Text, u32)>, ip: IpAddr)
    requires forall n :: n in exact ==> exact[n].Valid()
    requires IsReverse(exact, names, x) && IsReverse(exact, names, y) && ip in x
    ensures ip in y && x[ip] == y[ip]
  {
    assert Holds(exact, ip, x[ip].0, x[ip].1);
    assert Holds(exact, ip, y[ip].0, y[ip].1);
    CanonicalTotal(x[ip].0, y[ip].0);
  }

  /** The index is determined by the records alone, whatever order they were visited in. */
  lemma ReverseUnique(exact: map<Text, NameEntry>, names: set<Text>, x: map<IpAddr, (Text, u32)>,
                      y: map<IpAddr, (Text, u32)>)
    requires forall n :: n in exact ==> exact[n].Valid()
    requires IsReverse(exact, names, x) && IsReverse(exact, names, y)
    ensures x == y
  {
    hide IsReverse;
    forall ip | ip in x ensures ip in y && x[ip] == y[ip] {
      ReverseAgrees(exact, names, x, y, ip);
    }
    forall ip | ip in y ensures ip in x {
      ReverseAgrees(exact, names, y, x, ip);
    }
    assert x.Keys == y.Keys;
  }

  function InsertReverse(rev: map<IpAddr, (Text, u32)>, ip: IpAddr, n: Text, t: u32): map<IpAddr, (Text, u32)> {
    if ip !in rev || MoreCanonical(n, rev[ip].0) then rev[ip := (n, t)] else rev
  }

  function InsertEntry(rev: map<IpAddr, (Text, u32)>, n: Text, e: NameEntry): map<IpAddr, (Text, u32)> {
    var r := if e.a.Some? then InsertReverse(rev, e.a.value.addr, n, e.a.value.ttl) else rev;
    if e.aaaa.Some? then InsertReverse(r, e.aaaa.value.addr, n, e.aaaa.value.ttl) else r
  }

  lemma InsertKeepsReverse(exact: map<Text, NameEntry>, names: set<Text>, rev: map<IpAddr, (Text, u32)>, n: Text)
    requires IsReverse(exact, names, rev) && n in exact && n !in names && exact[n].Valid()
    ensures IsReverse(exact, names + {n}, InsertEntry(rev, n, exact[n]))
  {
    var e := exact[n];
    var r := InsertEntry(rev, n, e);
    forall ip, m, t | m in names + {n} && Holds(exact, ip, m, t)
      ensures ip in r && (m == r[ip].0 || MoreCanonical(r[ip].0, m))
    {
      if m in names {
        if r[ip].0 != rev[ip].0 && m != rev[ip].0 {
          CanonicalTransitive(r[ip].0, rev[ip].0, m);
        }
      } else if ip in rev {
        CanonicalTotal(n, rev[ip].0);
      }
    }
  }

  /** The hash map is visited in an order nobody fixes; the result is the same for every order. */
  method BuildReverse(exact: map<Text, NameEntry>) returns (rev: map<IpAddr, (Text, u32)>)
    requires forall n :: n in exact ==> exact[n].Valid()
    ensures IsReverse(exact, exact.Keys, rev)
  {
    rev := map[];
    var left := exact.Keys;
    ghost var done: set<Text> := {};
    while left != {}
      invariant left <= exact.Keys && done == exact.Keys - left
      invariant IsReverse(exact, done, rev)
      decreases left
    {
      var n :| n in left;
      InsertKeepsReverse(exact, done, rev, n);
      rev := InsertEntry(rev, n, exact[n]);
      left := left - {n};
      done := done + {n};
    }
    assert done == exact.Keys;
  }

  /** Reverse then forward: the name found for an address answers with that address and TTL. */
  lemma ReverseThenForward(records: Snapshot, ip: IpAddr)
    requires records.Valid() && ip in records.reverse
    ensures var n, t := records.reverse[ip].0, records.reverse[ip].1;
            && IsName(n) && n in records.exact && records.Find(n) == Some(records.exact[n])
            && records.exact[n].Resolve(if ip.V4? then A else Aaaa) == Answer(ip, t)
  {
  }

  /** What an entry answers: its record of the type asked for, and otherwise that the name exists. */
  lemma ResolveExact(e: NameEntry, qtype: Qtype, data: IpAddr, ttl: u32)
    ensures e.Resolve(qtype) == Answer(data, ttl) <==>
              (qtype == A && e.a == Some(Rec(data, ttl))) || (qtype == Aaaa && e.aaaa == Some(Rec(data, ttl)))
    ensures e.Resolve(qtype) == NameExistsNoData <==>
              (qtype == A ==> e.a.None?) && (qtype == Aaaa ==> e.aaaa.None?)
  {
  }

  /** `c` and `cur` first differ at `i`, where `c` has the smaller byte. */
  ghost predicate SmallerAt(c: Text, cur: Text, i: nat) {
    i < |c| && i < |cur| && c[..i] == cur[..i] && c[i] < cur[i]
  }

  lemma {:induction false} LexExact(x: Text, y: Text)
    requires |x| == |y|
    ensures LexLess(x, y) <==> exists i :: SmallerAt(x, y, i)
    decreases |x|
  {
    if x != [] {
      LexExact(x[1..], y[1..]);
      if x[0] == y[0] {
        if i: nat :| SmallerAt(x[1..], y[1..], i) {
          assert x[..i + 1] == [x[0]] + x[1..][..i] && y[..i + 1] == [y[0]] + y[1..][..i];
          assert SmallerAt(x, y, i + 1);
        }
        if i: nat :| SmallerAt(x, y, i) {
          assert i > 0 && x[1..][..i - 1] == x[..i][1..] && y[1..][..i - 1] == y[..i][1..];
          assert SmallerAt(x[1..], y[1..], i - 1);
        }
      } else {
        assert x[0] < y[0] ==> SmallerAt(x, y, 0);
        if i: nat :| SmallerAt(x, y, i) {
          assert i == 0;
        }
      }
    }
  }

  /** The shorter name comes first, and of equally long ones the one with the first smaller byte. */
  lemma MoreCanonicalExact(c: Text, cur: Text)
    ensures |c| < |cur| ==> MoreCanonical(c, cur)
    ensures |c| > |cur| ==> !MoreCanonical(c, cur)
    ensures |c| == |cur| ==> (MoreCanonical(c, cur) <==> exists i :: SmallerAt(c, cur, i))
  {
    if |c| == |cur| {
      LexExact(c, cur);
    }
  }

  // The builder.

  datatype BuildError = InvalidWildcard | InvalidName(kind: Error)

  const STAR: byte := 42

  class LocalRecordsBuilder {
    var exact: map<Text, NameEntry>
    var wildcard: map<Text, NameEntry>

    ghost predicate Valid()
      reads this
    {
      && (forall n :: n in exact ==> IsName(n) && exact[n].Valid())
      && (forall n :: n in wildcard ==> IsName(n) && n != [DOT] && wildcard[n].Valid())
    }

    constructor ()
      ensures Valid() && exact == map[] && wildcard == map[]
    {
      exact, wildcard := map[], map[];
    }

    method Add(name: Text, data: IpAddr, ttl: u32) returns (r: Option<BuildError>)
      requires Valid()
      modifies this
      ensures Valid()
      ensures exact == AddTo(old(exact), false, name, data, ttl) &&
                wildcard == AddTo(old(wildcard), true, name, data, ttl)
      ensures r == if Target(name).Ok? then None
                   else if IsBareWildcard(name) then Some(InvalidWildcard)
                   else Some(InvalidName(Target(name).error))
    {
      hide IsName, Target;
      var target := Target(name);
      if target.Err? {
        return if IsBareWildcard(name) then Some(InvalidWildcard) else Some(InvalidName(target.error));
      }
      TargetIsName(name);
      if IsWildcard(name) {
        wildcard := FillMap(wildcard, target.value, data, ttl);
      } else {
        exact := FillMap(exact, target.value, data, ttl);
      }
      return None;
    }

    method Build() returns (s: Snapshot)
      requires Valid()
      ensures s.Valid() && s.exact == exact && s.wildcard == wildcard
    {
      var reverse := BuildReverse(exact);
      s := Snapshot(exact, wildcard, reverse);
    }
  }

  predicate IsWildcard(name: Text) {
    |name| >= 2 && name[0] == STAR && name[1] == DOT
  }

  /** `*`, `*.` or `*..`: a wildcard with no label after it. */
  predicate IsBareWildcard(name: Text) {
    name == [STAR] || (IsWildcard(name) && (name[2..] == [] || name[2..] == [DOT]))
  }

  /** The normalized key a record name is stored under. */
  function Target(name: Text): Result<Text> {
    if IsBareWildcard(name) then Err(EmptyLabel)
    else if IsWildcard(name) then FromStr(name[2..])
    else FromStr(name)
  }

  function FillMap(m: map<Text, NameEntry>, key: Text, data: IpAddr, ttl: u32): map<Text, NameEntry> {
    m[key := (if key in m then m[key] else NameEntry(None, None)).Fill(data, ttl)]
  }

  /** The table of exact names, or of wildcard suffixes, after one `add`. */
  function AddTo(m: map<Text, NameEntry>, wild: bool, name: Text, data: IpAddr, ttl: u32): map<Text, NameEntry> {
    if Target(name).Ok? && IsWildcard(name) == wild then FillMap(m, Target(name).value, data, ttl) else m
  }

  /** Where a record name goes: `*.t` to the wildcards under `t`, any other name to the exact names. */
  lemma TargetExact(t: Text, name: Text)
    ensures var star := ['*' as int, '.' as int] + t;
            IsWildcard(star) && (if t == [] || t == ['.' as int] then Target(star).Err? else Target(star) == FromStr(t))
    ensures IsWildcard(name) <==> |name| >= 2 && name[..2] == ['*' as int, '.' as int]
    ensures !IsWildcard(name) ==> if name == ['*' as int] then Target(name).Err? else Target(name) == FromStr(name)
    ensures IsBareWildcard(name) <==>
              name in {['*' as int], ['*' as int, '.' as int], ['*' as int, '.' as int, '.' as int]}
  {
    hide FromStr;
    var star: Text := ['*' as int, '.' as int] + t;
    assert star[2..] == t;
    var one: Text, two: Text := ['*' as int, '.' as int], ['*' as int, '.' as int, '.' as int];
    assert one[2..] == [] && two[2..] == ['.' as int];
    if IsWildcard(name) {
      assert name[2..] == [] ==> name == one;
      assert name[2..] == ['.' as int] ==> name == two;
    }
  }

  lemma TargetIsName(name: Text)
    requires Target(name).Ok?
    ensures IsName(Target(name).value)
    ensures IsWildcard(name) ==> Target(name).value != [DOT]
  {
    hide IsName;
    FromStrIsName(if IsWildcard(name) then name[2..] else name);
    if IsWildcard(name) {
      FromStrNotRoot(name[2..]);
    }
  }

  lemma FromStrNotRoot(s: Text)
    requires FromStr(s).Ok? && s != [] && s != [DOT]
    ensures FromStr(s).value != [DOT]
  {
    var parts := Split(StripDot(s));
    SplitNonEmpty(StripDot(s));
    CheckExact(parts, 1);
    var ls := LowerAll(parts);
    assert GoodLabel(ls[0]);
  }

  // The snapshot built from stored rows.

  /** A stored row; its value is text that has to parse as an address of its type. */
  datatype RecordRow = RecordRow(name: Text, v4: bool, value: Text, ttl: u32)

  /** Parsing an address text of the given family is not modelled: any partial function. */
  type AddrParser = (bool, Text) -> Option<seq<byte>>

  function TrimDots(s: Text): Text {
    if s != [] && s[|s| - 1] == DOT then TrimDots(s[..|s| - 1]) else s
  }

  /** Trimming takes away the dots at the end and nothing else. */
  lemma {:induction false} TrimExact(s: Text)
    ensures var t := TrimDots(s);
            && |t| <= |s| && s[..|t|] == t && (t != [] ==> t[|t| - 1] as char != '.')
            && forall i :: |t| <= i < |s| ==> s[i] as char == '.'
    decreases |s|
  {
    if s != [] && s[|s| - 1] == DOT {
      TrimExact(s[..|s| - 1]);
    }
  }

  function DataOf(parse: AddrParser, row: RecordRow): Option<IpAddr> {
    match parse(row.v4, row.value)
    case None => None
    case Some(octets) => Some(if row.v4 then V4(octets) else V6(octets))
  }

  function RecOf(parse: AddrParser, row: RecordRow): Option<Rec> {
    if DataOf(parse, row).Some? then Some(Rec(DataOf(parse, row).value, row.ttl)) else None
  }

  predicate Accepts(parse: AddrParser, row: RecordRow) {
    DataOf(parse, row).Some? && Target(TrimDots(row.name)).Ok?
  }

  function TableOf(parse: AddrParser, rows: seq<RecordRow>, wild: bool): map<Text, NameEntry> {
    if rows == [] then map[] else
    var init, row := TableOf(parse, rows[..|rows| - 1], wild), rows[|rows| - 1];
    if DataOf(parse, row).Some? then AddTo(init, wild, TrimDots(row.name), DataOf(parse, row).value, row.ttl) else init
  }

  /** A row is acceptable if its value parses as its type says and its trimmed name has a place. */
  lemma RowExact(parse: AddrParser, row: RecordRow, octets: seq<byte>)
    ensures Accepts(parse, row) <==> parse(row.v4, row.value).Some? && Target(TrimDots(row.name)).Ok?
    ensures parse(row.v4, row.value) == Some(octets) ==>
              DataOf(parse, row) == Some(if row.v4 then V4(octets) else V6(octets))
  {
    hide Target, TrimDots;
  }

  datatype Built = Built(snapshot: Snapshot) | InvalidRow(index: nat)

  /** One bad row refuses the whole snapshot; the first bad one is reported. */
  method BuildLocalRecords(parse: AddrParser, rows: seq<RecordRow>) returns (r: Built)
    ensures r.Built? <==> forall i :: 0 <= i < |rows| ==> Accepts(parse, rows[i])
    ensures r.InvalidRow? ==> r.index < |rows| && !Accepts(parse, rows[r.index]) &&
                              forall i :: 0 <= i < r.index ==> Accepts(parse, rows[i])
    ensures r.Built? ==>
              && r.snapshot.Valid()
              && r.snapshot.exact == TableOf(parse, rows, false) && r.snapshot.wildcard == TableOf(parse, rows, true)
  {
    hide Target, AddTo, TrimDots, Snapshot.Valid, IsWildcard, IsBareWildcard;
    var builder := new LocalRecordsBuilder();
    assert rows[..0] == [];
    for i := 0 to |rows|
      invariant fresh(builder) && builder.Valid()
      invariant forall k :: 0 <= k < i ==> Accepts(parse, rows[k])
      invariant builder.exact == TableOf(parse, rows[..i], false) && builder.wildcard == TableOf(parse, rows[..i], true)
    {
      assert rows[..i + 1][..i] == rows[..i];
      var data := DataOf(parse, rows[i]);
      if data.None? {
        return InvalidRow(i);
      }
      var error := builder.Add(TrimDots(rows[i].name), data.value, rows[i].ttl);
      if error.Some? {
        return InvalidRow(i);
      }
    }
    assert rows[..|rows|] == rows;
    var snapshot := builder.Build();
    return Built(snapshot);
  }

  /** Row `i` sets the A (or AAAA) record of `key` in the given table. */
  ghost predicate Sets(parse: AddrParser, rows: seq<RecordRow>, wild: bool, key: Text, v4: bool, i: nat) {
    && i < |rows| && Accepts(parse, rows[i]) && rows[i].v4 == v4
    && IsWildcard(TrimDots(rows[i].name)) == wild && Target(TrimDots(rows[i].name)).value == key
  }

  ghost predicate SetsLast(parse: AddrParser, rows: seq<RecordRow>, wild: bool, key: Text, v4: bool, i: nat) {
    Sets(parse, rows, wild, key, v4, i) && forall j: nat :: i < j < |rows| ==> !Sets(parse, rows, wild, key, v4, j)
  }

  function Slot(m: map<Text, NameEntry>, key: Text, v4: bool): Option<Rec> {
    if key !in m then None else if v4 then m[key].a else m[key].aaaa
  }

  lemma SetsInit(parse: AddrParser, rows: seq<RecordRow>, wild: bool, key: Text, v4: bool, i: nat)
    requires rows != [] && i < |rows| - 1
    ensures Sets(parse, rows[..|rows| - 1], wild, key, v4, i) == Sets(parse, rows, wild, key, v4, i)
  {
  }

  lemma SlotAfterRow(parse: AddrParser, rows: seq<RecordRow>, wild: bool, key: Text, v4: bool)
    requires rows != []
    ensures var n := |rows| - 1;
            Slot(TableOf(parse, rows, wild), key, v4) ==
            if Sets(parse, rows, wild, key, v4, n) then RecOf(parse, rows[n])
            else Slot(TableOf(parse, rows[..n], wild), key, v4)
    ensures Sets(parse, rows, wild, key, v4, |rows| - 1) ==> RecOf(parse, rows[|rows| - 1]).Some?
  {
    hide Target, TrimDots, IsWildcard;
  }

  /** For each name and family, the last row that sets it decides; without any the slot is empty. */
  lemma {:induction false} LastRowDecides(parse: AddrParser, rows: seq<RecordRow>, wild: bool, key: Text, v4: bool)
    ensures Slot(TableOf(parse, rows, wild), key, v4).Some? <==> exists i: nat :: Sets(parse, rows, wild, key, v4, i)
    ensures forall i: nat :: SetsLast(parse, rows, wild, key, v4, i) ==>
              Slot(TableOf(parse, rows, wild), key, v4) == RecOf(parse, rows[i])
    decreases |rows|
  {
    hide Sets, Slot, TableOf, RecOf;
    if rows == [] {
      NoRows(parse, wild, key, v4);
    } else {
      var n := |rows| - 1;
      LastRowDecides(parse, rows[..n], wild, key, v4);
      SlotAfterRow(parse, rows, wild, key, v4);
      RowsInRange(parse, rows, wild, key, v4);
      RowsInRange(parse, rows[..n], wild, key, v4);
      forall i: nat | i < n ensures Sets(parse, rows[..n], wild, key, v4, i) == Sets(parse, rows, wild, key, v4, i) {
        SetsInit(parse, rows, wild, key, v4, i);
      }
      forall i: nat | SetsLast(parse, rows, wild, key, v4, i)
        ensures Slot(TableOf(parse, rows, wild), key, v4) == RecOf(parse, rows[i])
      {
        if i < n {
          assert !Sets(parse, rows, wild, key, v4, n);
          assert SetsLast(parse, rows[..n], wild, key, v4, i) && rows[..n][i] == rows[i];
        }
      }
    }
  }

  lemma NoRows(parse: AddrParser, wild: bool, key: Text, v4: bool)
    ensures Slot(TableOf(parse, [], wild), key, v4).None? && forall i: nat :: !Sets(parse, [], wild, key, v4, i)
  {
  }

  lemma RowsInRange(parse: AddrParser, rows: seq<RecordRow>, wild: bool, key: Text, v4: bool)
    ensures forall i: nat :: Sets(parse, rows, wild, key, v4, i) ==> i < |rows|
  {
  }

  /**
   * From rows to answers: a query for an exact name and for an address type is answered with the
   * data and the TTL of the last row that set that record; if no row did, but the name has a
   * record of the other type, the answer is that the name exists without data.
   */
  lemma LookupAfterRows(parse: AddrParser, rows: seq<RecordRow>, records: Snapshot, qname: Text, v4: bool)
    requires records.exact == TableOf(parse, rows, false)
    ensures forall i: nat :: SetsLast(parse, rows, false, qname, v4, i) ==>
              records.Find(qname).Some? &&
              records.Find(qname).value.Resolve(if v4 then A else Aaaa) ==
                  Answer(DataOf(parse, rows[i]).value, rows[i].ttl)
    ensures var other := !v4;
            (exists i: nat :: Sets(parse, rows, false, qname, other, i)) &&
                (forall i: nat :: !Sets(parse, rows, false, qname, v4, i)) ==>
              records.Find(qname).Some? && records.Find(qname).value.Resolve(if v4 then A else Aaaa) == NameExistsNoData
  {
    hide Sets, TableOf, DataOf;
    LastRowDecides(parse, rows, false, qname, v4);
    LastRowDecides(parse, rows, false, qname, !v4);
  }

  /** The same for the wildcard that covers the query name best. */
  lemma WildcardAfterRows(parse: AddrParser, rows: seq<RecordRow>, records: Snapshot, qname: Text, key: Text, v4: bool)
    requires records.Valid() && IsName(qname) && qname !in records.exact &&
               records.wildcard == TableOf(parse, rows, true)
    requires Covers(records.wildcard, key, Labels(qname))
    requires forall other :: Covers(records.wildcard, other, Labels(qname)) ==> |Labels(other)| <= |Labels(key)|
    ensures records.Find(qname).Some?
    ensures forall i: nat :: SetsLast(parse, rows, true, key, v4, i) ==>
              records.Find(qname).value.Resolve(if v4 then A else Aaaa) ==
                  Answer(DataOf(parse, rows[i]).value, rows[i].ttl)
    ensures (forall i: nat :: !Sets(parse, rows, true, key, v4, i)) ==>
              records.Find(qname).value.Resolve(if v4 then A else Aaaa) == NameExistsNoData
  {
    hide Sets, TableOf, DataOf, Labels, IsName, Snapshot.Find, Snapshot.Valid, Covers;
    BestCover(records, qname, key);
    LastRowDecides(parse, rows, true, key, v4);
  }

  lemma BestCover(records: Snapshot, qname: Text, key: Text)
    requires records.Valid() && IsName(qname) && qname !in records.exact
    requires Covers(records.wildcard, key, Labels(qname))
    requires forall other :: Covers(records.wildcard, other, Labels(qname)) ==> |Labels(other)| <= |Labels(key)|
    ensures key in records.wildcard && records.Find(qname) == Some(records.wildcard[key])
  {
    hide Labels, Snapshot.Find;
    LookupExact(records, qname);
    var best :| Covers(records.wildcard, best, Labels(qname)) && records.Find(qname) == Some(records.wildcard[best]) &&
                forall other :: Covers(records.wildcard, other, Labels(qname)) ==> |Labels(other)| <= |Labels(best)|;
    assert Labels(best) == Labels(key);
    assert IsName(best) && IsName(key);
  }
}
