/** The session registry: the `auth` table of (token, userId) rows that
    `loginUser`, `isLoggedIn` and `logoutUser` maintain. Rows are keyed not by
    the whole bearer token but by its signature, the third `.`-separated
    segment of the JWS Compact Serialization (section 7.1 of RFC 7515).
 */
module Sessions {
  import opened Common
  import opened Text

  /** `getTokenSignature(token)`: the third `.`-segment, or "" when the token
      has fewer than three. */
  function TokenSignature(token: string): (key: string)
    ensures '.' !in key
    ensures Count(token, '.') < 2 ==> key == ""
  {
    Segment(token, '.', 2).GetOr("")
  }

  /** A token whose dot-free segments are `parts` (the header, the payload,
      the signature and possibly further segments) is keyed by its third
      segment, the signature. */
  lemma SignatureOfCompactToken(parts: seq<string>)
    requires |parts| >= 3
    requires forall i :: 0 <= i < |parts| ==> '.' !in parts[i]
    ensures TokenSignature(Join(parts, '.')) == parts[2]
  {
    SegmentOfJoin(parts, '.', 2);
  }

  /** One row of the `auth` table. */
  datatype AuthRow = AuthRow(key: string, userId: int)

  /** The `auth` table, in insertion order. */
  type AuthTable = seq<AuthRow>

  /** `isLoggedIn(token)`: some row carries the token's signature. */
  predicate IsLoggedIn(table: AuthTable, token: string) {
    exists i :: 0 <= i < |table| && table[i].key == TokenSignature(token)
  }

  /** `loginUser(userId, token)`: inserts one row keyed by the signature. */
  function LoginUser(table: AuthTable, userId: int, token: string): (r: AuthTable)
    ensures IsLoggedIn(r, token)
    ensures multiset(r) == multiset(table) + multiset{AuthRow(TokenSignature(token), userId)}
    ensures forall t :: IsLoggedIn(table, t) ==> IsLoggedIn(r, t)
  {
    var r := table + [AuthRow(TokenSignature(token), userId)];
    assert r[|table|].key == TokenSignature(token);
    assert forall i :: 0 <= i < |table| ==> r[i] == table[i];
    r
  }

  /** The rows whose key differs from `key`, in their order. */
  function Without(table: AuthTable, key: string): (r: AuthTable)
    ensures forall i :: 0 <= i < |r| ==> r[i].key != key
    ensures forall row :: multiset(r)[row] == if row.key == key then 0 else multiset(table)[row]
  {
    if |table| == 0 then []
    else
      var rest := Without(table[1..], key);
      assert table == [table[0]] + table[1..];
      if table[0].key == key then rest else [table[0]] + rest
  }

  /** `logoutUser(token)`: deletes every row carrying the token's signature. */
  function LogoutUser(table: AuthTable, token: string): (r: AuthTable)
    ensures forall t :: TokenSignature(t) == TokenSignature(token) ==> !IsLoggedIn(r, t)
    ensures forall row: AuthRow :: row.key != TokenSignature(token) ==> multiset(r)[row] == multiset(table)[row]
    ensures forall t :: TokenSignature(t) != TokenSignature(token) ==> (IsLoggedIn(r, t) <==> IsLoggedIn(table, t))
  {
    var r := Without(table, TokenSignature(token));
    assert forall t :: TokenSignature(t) != TokenSignature(token) && IsLoggedIn(table, t) ==> IsLoggedIn(r, t) by {
      forall t | TokenSignature(t) != TokenSignature(token) && IsLoggedIn(table, t)
        ensures IsLoggedIn(r, t)
      {
        var i :| 0 <= i < |table| && table[i].key == TokenSignature(t);
        assert table[i] in multiset(table);
        assert table[i] in multiset(r);
        var j :| 0 <= j < |r| && r[j] == table[i];
      }
    }
    assert forall t :: IsLoggedIn(r, t) ==> IsLoggedIn(table, t) by {
      forall t | IsLoggedIn(r, t)
        ensures IsLoggedIn(table, t)
      {
        var j :| 0 <= j < |r| && r[j].key == TokenSignature(t);
        assert r[j] in multiset(r);
        assert r[j] in multiset(table);
        var i :| 0 <= i < |table| && table[i] == r[j];
      }
    }
    r
  }

  /** Logging out a token that has no row changes nothing. */
  lemma {:induction false} LogoutAbsentIsNoOp(table: AuthTable, token: string)
    requires !IsLoggedIn(table, token)
    ensures LogoutUser(table, token) == table
  {
    WithoutAbsent(table, TokenSignature(token));
  }

  lemma {:induction false} WithoutAbsent(table: AuthTable, key: string)
    requires forall i :: 0 <= i < |table| ==> table[i].key != key
    ensures Without(table, key) == table
  {
    if |table| > 0 {
      WithoutAbsent(table[1..], key);
      assert [table[0]] + table[1..] == table;
    }
  }

  /** Login, then logout of the same token: the token is no longer live,
      and every row that was there before with another key is still there. */
  lemma LoginThenLogout(table: AuthTable, userId: int, token: string)
    ensures !IsLoggedIn(LogoutUser(LoginUser(table, userId, token), token), token)
    ensures forall row: AuthRow :: row.key != TokenSignature(token) ==>
      multiset(LogoutUser(LoginUser(table, userId, token), token))[row] == multiset(table)[row]
  {
  }

  /** Tokens without a signature segment all share the key "": once one of
      them has a row, every one of them reads as logged in. */
  lemma UnsignedTokensCollide(table: AuthTable, t1: string, t2: string, userId: int)
    requires Count(t1, '.') < 2 && Count(t2, '.') < 2
    ensures IsLoggedIn(LoginUser(table, userId, t1), t2)
  {
    var r := LoginUser(table, userId, t1);
    assert r[|table|].key == "" == TokenSignature(t2);
  }
}
