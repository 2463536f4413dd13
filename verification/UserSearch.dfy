/** The two user searches: the loops over the in-memory table, and the rows the SQL queries select. */
module UserSearch {
  import opened LikeSearch

  datatype UserRow = UserRow(login: string, firstName: string, lastName: string, isDeleted: bool)

  /** The rows that `selects` holds of, in table order. */
  ghost function Rows(table: seq<UserRow>, selects: UserRow -> bool): seq<UserRow> {
    if table == [] then []
    else
      var n := |table| - 1;
      if selects(table[n]) then Rows(table[..n], selects) + [table[n]] else Rows(table[..n], selects)
  }

  /** The in-memory condition: both names contain their masks. */
  ghost function NamesContain(firstMask: string, lastMask: string): UserRow -> bool {
    (row: UserRow) => Contains(row.firstName, firstMask) && Contains(row.lastName, lastMask)
  }

  ghost function LoginContains(mask: string): UserRow -> bool {
    (row: UserRow) => Contains(row.login, mask)
  }

  /** The conditions of the two SQL queries. */
  ghost function NamesILike(fold: char -> char, firstMask: string, lastMask: string): UserRow -> bool {
    (row: UserRow) => ILike(fold, row.firstName, MakeLikePattern(firstMask)) &&
                      ILike(fold, row.lastName, MakeLikePattern(lastMask)) && !row.isDeleted
  }

  ghost function LoginILike(fold: char -> char, mask: string): UserRow -> bool {
    (row: UserRow) => ILike(fold, row.login, MakeLikePattern(mask)) && !row.isDeleted
  }

  function Active(): UserRow -> bool {
    (row: UserRow) => !row.isDeleted
  }

  method SearchUsersByLogin(table: seq<UserRow>, mask: string) returns (found: seq<UserRow>)
    ensures found == Rows(table, LoginContains(mask))
  {
    found := [];
    for n := 0 to |table|
      invariant found == Rows(table[..n], LoginContains(mask))
    {
      var matches := MatchesMask(table[n].login, mask);
      if matches {
        found := found + [table[n]];
      }
      assert table[..n + 1][..n] == table[..n];
    }
    assert table[..|table|] == table;
  }

  method SearchUsersByFirstNameLastName(table: seq<UserRow>, firstMask: string, lastMask: string)
    returns (found: seq<UserRow>)
    ensures found == Rows(table, NamesContain(firstMask, lastMask))
  {
    found := [];
    for n := 0 to |table|
      invariant found == Rows(table[..n], NamesContain(firstMask, lastMask))
    {
      var first := MatchesMask(table[n].firstName, firstMask);
      var last := MatchesMask(table[n].lastName, lastMask);
      if first && last {
        found := found + [table[n]];
      }
      assert table[..n + 1][..n] == table[..n];
    }
    assert table[..|table|] == table;
  }

  /** The rows come in the order of the table: those of its front before those of the rest. */
  lemma {:induction false} RowsConcat(front: seq<UserRow>, rest: seq<UserRow>, selects: UserRow -> bool)
    ensures Rows(front + rest, selects) == Rows(front, selects) + Rows(rest, selects)
  {
    if rest == [] {
      assert front + rest == front;
    } else {
      var earlier, last := rest[..|rest| - 1], rest[|rest| - 1];
      RowsConcat(front, earlier, selects);
      RowsSnoc(front + earlier, last, selects);
      assert front + rest == (front + earlier) + [last];
    }
  }

  /** And each row that is selected as often as it is in the table. */
  lemma {:induction false} RowsCount(table: seq<UserRow>, selects: UserRow -> bool, row: UserRow)
    ensures multiset(Rows(table, selects))[row] == if selects(row) then multiset(table)[row] else 0
  {
    if table != [] {
      RowsCount(table[..|table| - 1], selects, row);
      assert table == table[..|table| - 1] + [table[|table| - 1]];
    }
  }

  lemma {:induction false} RowsTwice(table: seq<UserRow>, p: UserRow -> bool, q: UserRow -> bool, both: UserRow -> bool)
    requires forall row :: both(row) <==> p(row) && q(row)
    ensures Rows(Rows(table, p), q) == Rows(table, both)
  {
    if table != [] {
      var n := |table| - 1;
      RowsTwice(table[..n], p, q, both);
      if p(table[n]) {
        RowsSnoc(Rows(table[..n], p), table[n], q);
      }
    }
  }

  lemma RowsSnoc(table: seq<UserRow>, row: UserRow, p: UserRow -> bool)
    ensures Rows(table + [row], p) == if p(row) then Rows(table, p) + [row] else Rows(table, p)
  {
    assert (table + [row])[..|table|] == table;
  }

  lemma RowsOfOne(row: UserRow, p: UserRow -> bool)
    ensures Rows([row], p) == if p(row) then [row] else []
  {
    RowsSnoc([], row, p);
    assert [] + [row] == [row];
  }

  /** The mask a pattern search can be trusted with: no special character, no letter with two cases. */
  ghost predicate Exact(fold: char -> char, mask: string) {
    Plain(mask) && Caseless(fold, mask)
  }

  // ---------- the LIMIT of the queries ----------

  const LIMIT := 100

  /** What a query may return: all rows its condition selects, or any 100 of them if there are more, in any order. */
  ghost predicate Returned(table: seq<UserRow>, selects: UserRow -> bool, result: seq<UserRow>) {
    var rows := Rows(table, selects);
    multiset(result) <= multiset(rows) && |result| == if |rows| <= LIMIT then |rows| else LIMIT
  }

  /** Whatever the query returns are the expected rows, none missing and none repeated. */
  ghost predicate Returns(table: seq<UserRow>, selects: UserRow -> bool, expected: seq<UserRow>) {
    forall result :: Returned(table, selects, result) ==> multiset(result) == multiset(expected)
  }

  lemma SameSize(part: multiset<UserRow>, whole: multiset<UserRow>)
    requires part <= whole && |part| == |whole|
    ensures part == whole
  {
    assert |whole - part| == 0;
    assert whole == part + (whole - part);
  }

  lemma RowsReturned(table: seq<UserRow>, selects: UserRow -> bool)
    ensures var rows := Rows(table, selects);
            Returned(table, selects, if |rows| <= LIMIT then rows else rows[..LIMIT])
  {
    var rows := Rows(table, selects);
    if |rows| > LIMIT {
      assert rows == rows[..LIMIT] + rows[LIMIT..];
    }
  }

  /** A query returns all rows its condition selects exactly when these are at most 100. */
  lemma ReturnsAllIff(table: seq<UserRow>, selects: UserRow -> bool)
    ensures Returns(table, selects, Rows(table, selects)) <==> |Rows(table, selects)| <= 100
  {
    var rows := Rows(table, selects);
    if |rows| <= LIMIT {
      forall result | Returned(table, selects, result)
        ensures multiset(result) == multiset(rows)
      {
        assert |multiset(result)| == |result| && |multiset(rows)| == |rows|;
        SameSize(multiset(result), multiset(rows));
      }
    } else {
      RowsReturned(table, selects);
      assert |multiset(rows[..LIMIT])| == LIMIT && |multiset(rows)| == |rows|;
    }
  }

  /** One row on which the conditions differ is a table on which the searches do, well below the limit. */
  lemma OneRowDiffers(row: UserRow, selects: UserRow -> bool, found: UserRow -> bool)
    requires !row.isDeleted && selects(row) != found(row)
    ensures |Rows(Rows([row], found), Active())| <= LIMIT
    ensures !Returns([row], selects, Rows(Rows([row], found), Active()))
  {
    RowsOfOne(row, selects);
    RowsOfOne(row, found);
    RowsOfOne(row, Active());
    RowsReturned([row], selects);
    assert |multiset(Rows([row], selects))| != |multiset(Rows(Rows([row], found), Active()))|;
  }

  // ---------- the two searches against each other ----------

  /** The query returns the users that the in-memory search finds, less the deleted ones, from every table that has at
      most 100 of them and from no other, exactly when the mask has no special character and no letter with two
      cases. */
  lemma LoginSearchesAgreeIff(fold: char -> char, mask: string)
    requires KeepsSpecials(fold)
    ensures Exact(fold, mask) <==>
            forall table ::
              var found := Rows(Rows(table, LoginContains(mask)), Active());
              Returns(table, LoginILike(fold, mask), found) <==> |found| <= 100
  {
    LikeIsMatchesMaskIff(fold, mask);
    if Exact(fold, mask) {
      forall table
        ensures var found := Rows(Rows(table, LoginContains(mask)), Active());
                Returns(table, LoginILike(fold, mask), found) <==> |found| <= 100
      {
        RowsTwice(table, LoginContains(mask), Active(), LoginILike(fold, mask));
        ReturnsAllIff(table, LoginILike(fold, mask));
      }
    } else {
      var value :| ILike(fold, value, MakeLikePattern(mask)) != Contains(value, mask);
      OneRowDiffers(UserRow(value, "", "", false), LoginILike(fold, mask), LoginContains(mask));
    }
  }

  /** A value every search for the mask finds. */
  lemma FoundByBoth(fold: char -> char, mask: string) returns (value: string)
    requires KeepsSpecials(fold)
    ensures ILike(fold, value, MakeLikePattern(mask)) && Contains(value, mask)
  {
    value := mask + Decoy(mask);
    DecoyFoundBehind(fold, mask, mask);
    assert OccursAt(value, mask, 0);
  }

  /** The query by both names returns what the in-memory search finds, for the tables it can. */
  ghost predicate NamesAgree(fold: char -> char, table: seq<UserRow>, firstMask: string, lastMask: string) {
    var found := Rows(Rows(table, NamesContain(firstMask, lastMask)), Active());
    Returns(table, NamesILike(fold, firstMask, lastMask), found) <==> |found| <= 100
  }

  lemma NamesDisagree(fold: char -> char, first: string, last: string, firstMask: string, lastMask: string)
    requires (ILike(fold, first, MakeLikePattern(firstMask)) && ILike(fold, last, MakeLikePattern(lastMask))) !=
             (Contains(first, firstMask) && Contains(last, lastMask))
    ensures exists table :: !NamesAgree(fold, table, firstMask, lastMask)
  {
    var row := UserRow("", first, last, false);
    OneRowDiffers(row, NamesILike(fold, firstMask, lastMask), NamesContain(firstMask, lastMask));
    assert !NamesAgree(fold, [row], firstMask, lastMask);
  }

  /** The same for the search by first and last name, on both masks. */
  lemma NameSearchesAgreeIff(fold: char -> char, firstMask: string, lastMask: string)
    requires KeepsSpecials(fold)
    ensures Exact(fold, firstMask) && Exact(fold, lastMask) <==>
            forall table :: NamesAgree(fold, table, firstMask, lastMask)
  {
    LikeIsMatchesMaskIff(fold, firstMask);
    LikeIsMatchesMaskIff(fold, lastMask);
    if !Exact(fold, firstMask) {
      var first :| ILike(fold, first, MakeLikePattern(firstMask)) != Contains(first, firstMask);
      var last := FoundByBoth(fold, lastMask);
      NamesDisagree(fold, first, last, firstMask, lastMask);
    } else if !Exact(fold, lastMask) {
      var first := FoundByBoth(fold, firstMask);
      var last :| ILike(fold, last, MakeLikePattern(lastMask)) != Contains(last, lastMask);
      NamesDisagree(fold, first, last, firstMask, lastMask);
    } else {
      forall table
        ensures NamesAgree(fold, table, firstMask, lastMask)
      {
        RowsTwice(table, NamesContain(firstMask, lastMask), Active(), NamesILike(fold, firstMask, lastMask));
        ReturnsAllIff(table, NamesILike(fold, firstMask, lastMask));
      }
    }
  }
}
