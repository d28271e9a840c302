/** The `Reports` table of the application's database context: its ReportItem rows, held in
    memory in the order they are enumerated; names need not be unique. */
module ReportTable {
  import opened Outcomes

  newtype byte = x: int | 0 <= x < 256

  /** A report layout as SaveLayoutToXml writes it; opaque to the storage. */
  type Bytes = seq<byte>

  /** One row of the table (the ReportItem entity). */
  datatype ReportItem = ReportItem(name: string, displayName: string, layoutData: Bytes)

  type Table = seq<ReportItem>

  /** The names of the rows, in table order (`Reports.Select(x => x.Name)`). */
  function Names(t: Table): (names: seq<string>)
    ensures |names| == |t|
    ensures forall i :: 0 <= i < |t| ==> names[i] == t[i].name
  {
    seq(|t|, i requires 0 <= i < |t| => t[i].name)
  }

  /** The set of names some row carries. */
  function NameSet(t: Table): set<string> {
    set i | 0 <= i < |t| :: t[i].name
  }

  /** Row `i` is the first row named `url`. */
  predicate IsFirstNamed(t: Table, url: string, i: int) {
    0 <= i < |t| && t[i].name == url && forall j :: 0 <= j < i ==> t[j].name != url
  }

  /** `Reports.FirstOrDefault(x => x.Name == url)`, giving the position of the row found
      (so that the caller can update it in place) or None for the null default. */
  function FirstOrDefault(t: Table, url: string): (r: Option<nat>)
    ensures r.Some? <==> url in NameSet(t)
    ensures r.Some? ==> IsFirstNamed(t, url, r.value)
  {
    if t == [] then
      None
    else if t[0].name == url then
      Some(0)
    else
      assert NameSet(t) == {t[0].name} + NameSet(t[1..]);
      match FirstOrDefault(t[1..], url)
      case None => None
      case Some(i) => Some(i + 1)
  }

  /** How many rows are named `url`. */
  function CountNamed(t: Table, url: string): nat {
    if t == [] then 0 else (if t[0].name == url then 1 else 0) + CountNamed(t[1..], url)
  }

  /** No two rows share a name: the invariant the lookup-then-write sequence of SetData keeps. */
  predicate UniqueNames(t: Table) {
    forall i, j :: 0 <= i < j < |t| ==> t[i].name != t[j].name
  }

  /** The table after SetData(report, url) has stored `layout`, the report's serialised layout:
      a new row (url, url, layout) is added when no row is named `url`, and otherwise the
      layout of the first such row is overwritten. */
  function Upsert(t: Table, url: string, layout: Bytes): (r: Table)
    ensures url !in NameSet(t) ==> |r| == |t| + 1 && r[..|t|] == t && r[|t|] == ReportItem(url, url, layout)
    ensures forall i | IsFirstNamed(t, url, i) ::
      |r| == |t| && r[i] == ReportItem(url, t[i].displayName, layout)
      && forall j :: 0 <= j < |t| && j != i ==> r[j] == t[j]
  {
    match FirstOrDefault(t, url)
    case None => t + [ReportItem(url, url, layout)]
    case Some(i) =>
      t[i := t[i].(layoutData := layout)]
  }

  /** Upsert never drops a name and adds exactly `url`. */
  lemma UpsertNames(t: Table, url: string, layout: Bytes)
    ensures NameSet(Upsert(t, url, layout)) == NameSet(t) + {url}
  {
  }

  lemma {:induction false} CountNamedAppend(t: Table, item: ReportItem, url: string)
    ensures CountNamed(t + [item], url) == CountNamed(t, url) + (if item.name == url then 1 else 0)
    decreases |t|
  {
    if t != [] {
      assert (t + [item])[1..] == t[1..] + [item];
      CountNamedAppend(t[1..], item, url);
    }
  }

  lemma {:induction false} CountNamedUpdate(t: Table, i: nat, item: ReportItem, url: string)
    requires i < |t| && item.name == t[i].name
    ensures CountNamed(t[i := item], url) == CountNamed(t, url)
    decreases |t|
  {
    if i > 0 {
      assert t[i := item][1..] == t[1..][i - 1 := item];
      CountNamedUpdate(t[1..], i - 1, item, url);
    }
  }

  lemma {:induction false} CountNamedAbsent(t: Table, url: string)
    ensures url !in NameSet(t) <==> CountNamed(t, url) == 0
    decreases |t|
  {
    if t != [] {
      assert NameSet(t) == {t[0].name} + NameSet(t[1..]);
      CountNamedAbsent(t[1..], url);
    }
  }

  /** SetData never creates a second row for a name: after it the name has one row, or as many
      as before when the table already held some. */
  lemma UpsertCount(t: Table, url: string, layout: Bytes)
    ensures CountNamed(Upsert(t, url, layout), url) == if url in NameSet(t) then CountNamed(t, url) else 1
  {
    CountNamedAbsent(t, url);
    match FirstOrDefault(t, url)
    case None =>
      CountNamedAppend(t, ReportItem(url, url, layout), url);
    case Some(i) =>
      CountNamedUpdate(t, i, t[i].(layoutData := layout), url);
  }

  /** The rows for other names are exactly as before. */
  lemma UpsertOthers(t: Table, url: string, layout: Bytes, other: string)
    requires other != url
    ensures FirstOrDefault(Upsert(t, url, layout), other) == FirstOrDefault(t, other)
    ensures forall i | IsFirstNamed(t, other, i) :: Upsert(t, url, layout)[i] == t[i]
  {
  }

  /** Upsert keeps every name unique once it was. */
  lemma UpsertUnique(t: Table, url: string, layout: Bytes)
    requires UniqueNames(t)
    ensures UniqueNames(Upsert(t, url, layout))
  {
  }

  /** A second SetData to the same name only replaces the layout the first one stored. */
  lemma UpsertTwice(t: Table, url: string, first: Bytes, second: Bytes)
    ensures Upsert(Upsert(t, url, first), url, second) == Upsert(t, url, second)
  {
  }
}
