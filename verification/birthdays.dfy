/** The birthdays cog of cogs/birthdays.py: `/setbirthday`, `/mybirthday` and
    `/birthdaylist` over the `birthdays` table (user id to date, one row per user).
    A store error on a statement is the parameter `fault`; the guild's member
    lookup is the parameter `isMember`. */
module Birthdays {
  import opened Tables
  import opened Calendar
  import opened DateText
  import Ordering

  type UserId = int

  /** The `birthdays` table. */
  type BirthdayTable = seq<Row<Date>>

  datatype SetReply = InvalidFormat | BirthdaySet(date: Date) | SetFailed

  /** `/setbirthday date`: parse the text, then upsert the caller's row. Text that
      does not parse changes nothing and asks for YYYY-MM-DD; a failed write
      changes nothing and apologises. */
  function SetBirthday(table: BirthdayTable, user: UserId, text: string, fault: Option<string>)
    : (r: (BirthdayTable, SetReply))
    ensures r.1 == InvalidFormat <==> ParseDate(text).None?
    ensures r.1 == SetFailed <==> ParseDate(text).Some? && fault.Some?
    ensures !r.1.BirthdaySet? ==> r.0 == table
    ensures r.1.BirthdaySet? ==>
      && ParseDate(text) == Some(r.1.date)
      && Lookup(r.0, user) == Some(r.1.date)
      && (forall other :: other != user ==> Lookup(r.0, other) == Lookup(table, other))
    ensures UniqueKeys(table) ==> UniqueKeys(r.0)
  {
    match ParseDate(text)
    case None => (table, InvalidFormat)
    case Some(date) =>
      if fault.Some? then (table, SetFailed)
      else (Upsert(table, user, date), BirthdaySet(date))
  }

  /** A birthday written in the canonical form is stored as the date it names. */
  lemma SetBirthdayAcceptsIsoText(table: BirthdayTable, user: UserId, d: Date)
    requires ValidDate(d) && 1 <= d.year <= 9999
    ensures SetBirthday(table, user, IsoFormat(d), None).1 == BirthdaySet(d)
  {
    IsoFormatRoundTrip(d);
  }

  datatype GetReply = StoredBirthday(date: Date) | NoBirthday | GetFailed

  /** `/mybirthday`: the caller's row, if there is one. */
  function MyBirthday(table: BirthdayTable, user: UserId, fault: Option<string>): (r: GetReply)
    ensures r.GetFailed? <==> fault.Some?
    ensures UniqueKeys(table) ==> forall d :: r == StoredBirthday(d) <==> fault.None? && Row(user, d) in table
    ensures r.NoBirthday? <==> fault.None? && forall i :: 0 <= i < |table| ==> table[i].key != user
  {
    if fault.Some? then GetFailed
    else
      match Lookup(table, user)
      case None => NoBirthday
      case Some(d) =>
        assert UniqueKeys(table) ==> forall d' :: Row(user, d') in table <==> d' == d by {
          if UniqueKeys(table) {
            forall d' ensures Row(user, d') in table <==> d' == d {
              LookupUnique(table, user, d');
            }
          }
        }
        StoredBirthday(d)
  }

  /** Setting a birthday and then asking for it gives back the date set, last write
      winning. */
  lemma SetThenGet(table: BirthdayTable, user: UserId, text: string, d: Date)
    requires ParseDate(text) == Some(d)
    ensures MyBirthday(SetBirthday(table, user, text, None).0, user, None) == StoredBirthday(d)
  {
  }

  /** `ORDER BY birthday_date`. */
  predicate ByDate(a: Row<Date>, b: Row<Date>) {
    DateLe(a.value, b.value)
  }

  datatype ListReply = NoBirthdays | NoMemberBirthdays | Lines(rows: seq<Row<Date>>) | ListFailed

  /** `/birthdaylist`: every stored birthday in date order, keeping only the users
      who are members of this guild; an empty table and a table with no members'
      birthdays get different replies. */
  function BirthdayList(table: BirthdayTable, isMember: UserId -> bool, fault: Option<string>): (r: ListReply)
    ensures r.ListFailed? <==> fault.Some?
    ensures r.NoBirthdays? <==> fault.None? && |table| == 0
    ensures r.NoMemberBirthdays? <==>
      fault.None? && |table| > 0 && forall i :: 0 <= i < |table| ==> !isMember(table[i].key)
    ensures r.Lines? ==>
      && |r.rows| > 0
      && Ordering.Sorted(r.rows, ByDate)
      && forall x :: multiset(r.rows)[x] == if isMember(x.key) then multiset(table)[x] else 0
  {
    if fault.Some? then ListFailed
    else if |table| == 0 then NoBirthdays
    else
      DateLeIsTotalPreorder();
      assert Ordering.TotalPreorder(ByDate);
      var ordered := Ordering.Sort(table, ByDate);
      var lines := Filter(ordered, (x: Row<Date>) => isMember(x.key));
      FilterCounts(ordered, (x: Row<Date>) => isMember(x.key));
      FilterKeepsOrder(ordered, (x: Row<Date>) => isMember(x.key), ByDate);
      assert |lines| == 0 <==> forall i :: 0 <= i < |table| ==> !isMember(table[i].key) by {
        if |lines| > 0 {
          assert lines[0] in multiset(lines);
          var i :| 0 <= i < |table| && table[i] == lines[0];
        }
        if |lines| == 0 {
          forall i | 0 <= i < |table| ensures !isMember(table[i].key) {
            assert multiset(lines)[table[i]] == 0;
          }
        }
      }
      if |lines| == 0 then NoMemberBirthdays else Lines(lines)
  }
}
