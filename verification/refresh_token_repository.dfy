/** The refresh_tokens table and the queries the repository runs on it:
    save, lookup by token, lookup by user, delete of one row and the two
    bulk DELETE statements. */
module TokenRepository {
  import opened Domain

  /** The condition of a query's WHERE clause over refresh-token rows. */
  datatype Where =
    | OwnerIs(user: UserId)   // rt.user = :user; entities compare by primary key
    | ExpiredAt(now: Millis)  // rt.expiryDate < CURRENT_TIMESTAMP
    | TokenIs(token: string)  // the row of one token value
    | Not(cond: Where)

  predicate Matches(w: Where, rec: RefreshToken) {
    match w
    case OwnerIs(u) => rec.owner == u
    case ExpiredAt(now) => rec.expiryDate < now
    case TokenIs(t) => rec.token == t
    case Not(c) => !Matches(c, rec)
  }

  /** The rows a query with condition `w` selects, in table order. */
  function Select(rows: seq<RefreshToken>, w: Where): (r: seq<RefreshToken>)
    ensures |r| <= |rows|
    ensures forall x :: x in r <==> x in rows && Matches(w, x)
  {
    if rows == [] then []
    else if Matches(w, rows[0]) then [rows[0]] + Select(rows[1..], w)
    else Select(rows[1..], w)
  }

  /** The table left by `DELETE FROM RefreshToken rt WHERE w`. */
  function DeleteWhere(rows: seq<RefreshToken>, w: Where): (r: seq<RefreshToken>)
    ensures |r| <= |rows|
    ensures forall x :: x in r <==> x in rows && !Matches(w, x)
  {
    Select(rows, Not(w))
  }

  /** No row of `rows` carries token `t`. */
  predicate TokenAbsent(rows: seq<RefreshToken>, t: string) {
    forall x :: x in rows ==> x.token != t
  }

  /** The unique constraint on the token column: each row's token differs from
      the tokens of all rows after it. */
  predicate UniqueTokens(rows: seq<RefreshToken>) {
    rows == [] || (TokenAbsent(rows[1..], rows[0].token) && UniqueTokens(rows[1..]))
  }

  /** The first row whose token is `t`, if any. */
  function FindToken(rows: seq<RefreshToken>, t: string): (r: Option<RefreshToken>)
    ensures r.Some? ==> r.value in rows && r.value.token == t
    ensures r.None? <==> TokenAbsent(rows, t)
  {
    if rows == [] then None
    else if rows[0].token == t then Some(rows[0])
    else FindToken(rows[1..], t)
  }

  /** Under the unique constraint, no two rows share a token. */
  lemma {:induction false} UniqueTokensAt(rows: seq<RefreshToken>, i: int, j: int)
    requires UniqueTokens(rows)
    requires 0 <= i < j < |rows|
    ensures rows[i].token != rows[j].token
  {
    if i == 0 {
      assert rows[j] == rows[1..][j - 1];
      assert rows[j] in rows[1..];
    } else {
      UniqueTokensAt(rows[1..], i - 1, j - 1);
    }
  }

  /** Under the unique constraint, a token resolves to exactly its own row. */
  lemma {:induction false} FindTokenUnique(rows: seq<RefreshToken>, rec: RefreshToken)
    requires UniqueTokens(rows)
    requires rec in rows
    ensures FindToken(rows, rec.token) == Some(rec)
  {
    if rows[0] != rec {
      assert rec in rows[1..];
      FindTokenUnique(rows[1..], rec);
    }
  }

  /** Appending a row whose token is new keeps the constraint. */
  lemma {:induction false} AppendKeepsUnique(rows: seq<RefreshToken>, rec: RefreshToken)
    requires UniqueTokens(rows)
    requires TokenAbsent(rows, rec.token)
    ensures UniqueTokens(rows + [rec])
  {
    if rows == [] {
      assert [] + [rec] == [rec];
    } else {
      assert (rows + [rec])[1..] == rows[1..] + [rec];
      AppendKeepsUnique(rows[1..], rec);
      assert rows[0] in rows;
    }
  }

  /** Any selection of a table that satisfies the constraint satisfies it too. */
  lemma {:induction false} SelectKeepsUnique(rows: seq<RefreshToken>, w: Where)
    requires UniqueTokens(rows)
    ensures UniqueTokens(Select(rows, w))
  {
    if rows != [] {
      SelectKeepsUnique(rows[1..], w);
      if Matches(w, rows[0]) {
        var rest := Select(rows[1..], w);
        assert ([rows[0]] + rest)[1..] == rest;
      }
    }
  }

  /** Selecting twice with the same condition selects what selecting once does. */
  lemma {:induction false} SelectIdempotent(rows: seq<RefreshToken>, w: Where)
    ensures Select(Select(rows, w), w) == Select(rows, w)
  {
    if rows != [] {
      SelectIdempotent(rows[1..], w);
      if Matches(w, rows[0]) {
        var rest := Select(rows[1..], w);
        assert ([rows[0]] + rest)[0] == rows[0];
        assert ([rows[0]] + rest)[1..] == rest;
      }
    }
  }

  /** Running a bulk DELETE a second time, with the same condition, deletes nothing more. */
  lemma DeleteWhereIdempotent(rows: seq<RefreshToken>, w: Where)
    ensures DeleteWhere(DeleteWhere(rows, w), w) == DeleteWhere(rows, w)
  {
    SelectIdempotent(rows, Not(w));
  }

  /** A DELETE whose condition matches no row leaves the table as it was. */
  lemma {:induction false} DeleteWhereOfUnmatched(rows: seq<RefreshToken>, w: Where)
    requires forall x :: x in rows ==> !Matches(w, x)
    ensures DeleteWhere(rows, w) == rows
  {
    if rows != [] {
      assert rows[0] in rows;
      assert forall x :: x in rows[1..] ==> x in rows;
      DeleteWhereOfUnmatched(rows[1..], w);
      assert [rows[0]] + rows[1..] == rows;
    }
  }

  /** After `DELETE ... WHERE rt.user = :user`, no token of that user resolves:
      a later refresh with any of them finds nothing. */
  lemma LogoutAllRevokesEveryToken(rows: seq<RefreshToken>, user: UserId, rec: RefreshToken)
    requires UniqueTokens(rows)
    requires rec in rows && rec.owner == user
    ensures FindToken(DeleteWhere(rows, OwnerIs(user)), rec.token).None?
  {
    var left := DeleteWhere(rows, OwnerIs(user));
    forall x | x in left ensures x.token != rec.token {
      if x.token == rec.token {
        FindTokenUnique(rows, x);
        FindTokenUnique(rows, rec);
      }
    }
  }

  /** The expiry sweep never removes a row that is still live at the sweep's
      instant: such a token resolves to the same row afterwards. */
  lemma SweepKeepsLiveToken(rows: seq<RefreshToken>, now: Millis, rec: RefreshToken)
    requires UniqueTokens(rows)
    requires rec in rows && now <= rec.expiryDate
    ensures FindToken(DeleteWhere(rows, ExpiredAt(now)), rec.token) == Some(rec)
  {
    SelectKeepsUnique(rows, Not(ExpiredAt(now)));
    FindTokenUnique(DeleteWhere(rows, ExpiredAt(now)), rec);
  }

  /** The repository over the refresh_tokens table. */
  class RefreshTokenRepository {
    var rows: seq<RefreshToken>

    ghost predicate Valid()
      reads this
    {
      UniqueTokens(rows)
    }

    constructor ()
      ensures Valid() && rows == []
    {
      rows := [];
    }

    /** save(entity) of a new row; the unique token column rejects a token already stored. */
    method Save(rec: RefreshToken) returns (r: Outcome)
      requires Valid()
      modifies this
      ensures Valid()
      ensures r == Pass <==> TokenAbsent(old(rows), rec.token)
      ensures r.Pass? ==> rows == old(rows) + [rec]
      ensures r.Fail? ==> r.error == DuplicateKey && rows == old(rows)
    {
      if FindToken(rows, rec.token).Some? {
        r := Fail(DuplicateKey);
      } else {
        AppendKeepsUnique(rows, rec);
        rows := rows + [rec];
        r := Pass;
      }
    }

    /** findByToken: the one row holding token `t`, or none. */
    function FindByToken(t: string): (r: Option<RefreshToken>)
      reads this
      requires Valid()
      ensures r.Some? ==> r.value in rows && r.value.token == t
      ensures forall rec :: rec in rows && rec.token == t ==> r == Some(rec)
      ensures r.None? <==> TokenAbsent(rows, t)
    {
      assert forall rec | rec in rows && rec.token == t :: FindToken(rows, t) == Some(rec) by {
        forall rec | rec in rows && rec.token == t ensures FindToken(rows, t) == Some(rec) {
          FindTokenUnique(rows, rec);
        }
      }
      FindToken(rows, t)
    }

    /** findByUser: a single-result query. No row gives an empty result, one row
        gives that row, and more than one row is an error. */
    function FindByUser(user: UserId): (r: Result<Option<RefreshToken>>)
      reads this
      requires Valid()
      ensures r == Ok(None) <==> forall x :: x in rows ==> x.owner != user
      ensures r.Ok? && r.value.Some? ==>
                && r.value.value in rows && r.value.value.owner == user
                && forall x :: x in rows && x.owner == user ==> x == r.value.value
      ensures r.Err? ==>
                && r.error == NonUniqueResult
                && exists a, b :: a in rows && b in rows && a.owner == user && b.owner == user && a.token != b.token
    {
      var owned := Select(rows, OwnerIs(user));
      if |owned| == 0 then
        assert forall x :: x in rows && x.owner == user ==> x in owned;
        Ok(None)
      else if |owned| == 1 then
        assert owned[0] in owned;
        assert forall x :: x in owned ==> x == owned[0];
        Ok(Some(owned[0]))
      else
        SelectKeepsUnique(rows, OwnerIs(user));
        UniqueTokensAt(owned, 0, 1);
        assert owned[0] in owned && owned[1] in owned;
        Err(NonUniqueResult)
    }

    /** delete(entity): removes the entity's row; a row no longer stored is ignored. */
    method Delete(rec: RefreshToken)
      requires Valid()
      modifies this
      ensures Valid()
      ensures rows == DeleteWhere(old(rows), TokenIs(rec.token))
      ensures TokenAbsent(rows, rec.token)
    {
      SelectKeepsUnique(rows, Not(TokenIs(rec.token)));
      rows := DeleteWhere(rows, TokenIs(rec.token));
    }

    /** deleteAllByUser: `DELETE FROM RefreshToken rt WHERE rt.user = :user`. */
    method DeleteAllByUser(user: UserId)
      requires Valid()
      modifies this
      ensures Valid()
      ensures rows == DeleteWhere(old(rows), OwnerIs(user))
      ensures forall x :: x in rows <==> x in old(rows) && x.owner != user
    {
      SelectKeepsUnique(rows, Not(OwnerIs(user)));
      rows := DeleteWhere(rows, OwnerIs(user));
    }

    /** deleteAllExpired: `DELETE FROM RefreshToken rt WHERE rt.expiryDate < CURRENT_TIMESTAMP`,
        with the database clock reading `now`. */
    method DeleteAllExpired(now: Millis)
      requires Valid()
      modifies this
      ensures Valid()
      ensures rows == DeleteWhere(old(rows), ExpiredAt(now))
      ensures forall x :: x in rows <==> x in old(rows) && now <= x.expiryDate
    {
      SelectKeepsUnique(rows, Not(ExpiredAt(now)));
      rows := DeleteWhere(rows, ExpiredAt(now));
    }

    /** The transaction manager's rollback: the changes of the transaction are
        discarded and the table is back to its state when the transaction began. */
    method Rollback(snapshot: seq<RefreshToken>)
      requires UniqueTokens(snapshot)
      modifies this
      ensures Valid() && rows == snapshot
    {
      rows := snapshot;
    }
  }
}
