/**
 * Leaving the network (`remove_user`, src/dino.py:56-87): the peer is
 * looked up in the listing the discovery service returns, and only when
 * it is found is its row deleted from the local `USERS` table, in one
 * transaction that either commits or rolls back.
 */
module Peers {
  import opened Wrappers
  import opened Http

  /** The Python values the membership test compares. */
  datatype PyValue =
    | PyStr(s: string)
    | PyInt(i: int)
    | PyErrorDict(error: string)    // `{'error': msg}`
    | PyTuple(items: seq<PyValue>)

  /** `(user_ip,)`: the one-column row the membership test looks for. */
  function Row(ip: string): PyValue {
    PyTuple([PyStr(ip)])
  }

  function PayloadValue(p: Payload): PyValue {
    match p
    case Text(t) => PyStr(t)
    case ErrorDict(m) => PyErrorDict(m)
  }

  /**
   * The items of the pair `get_users_list()` returns: `get_data` on the
   * base address gives `(data, status)`, and `x in users` ranges over
   * those two items.
   */
  function UsersList(base: string, net: Network): (users: seq<PyValue>)
    ensures |users| == 2 && !users[0].PyTuple? && users[1].PyInt?
    ensures net(Get("http://" + base)).Raised? ==>
              users == [PyErrorDict(net(Get("http://" + base)).message), PyInt(TransportErrorStatus)]
    ensures net(Get("http://" + base)).Response? ==>
              users == [PyStr(net(Get("http://" + base)).text), PyInt(net(Get("http://" + base)).status)]
  {
    var reply := GetData(base, MethodGet, net).value;
    [PayloadValue(reply.data), PyInt(reply.status)]
  }

  /** What the `DELETE ... ; commit()` step does: commit, or raise and roll back. */
  datatype DeleteOutcome = Committed | Failed(error: string)

  function NotConnectedMessage(ip: string): string { ip + ": not connected!" }
  function LeftMessage(ip: string): string { ip + ": left" }
  function ErrorDeletingMessage(ip: string, error: string): string { ip + ": error deleting\n" + error }

  /**
   * The three answers of `remove_user` start with the address and `": "`,
   * and the character after that tells them apart.
   */
  lemma MessagesTellBranches(ip: string, error: string)
    ensures NotConnectedMessage(ip)[..|ip| + 2] == ip + ": " && NotConnectedMessage(ip)[|ip| + 2] == 'n'
    ensures LeftMessage(ip)[..|ip| + 2] == ip + ": " && LeftMessage(ip)[|ip| + 2] == 'l'
    ensures ErrorDeletingMessage(ip, error)[..|ip| + 2] == ip + ": " && ErrorDeletingMessage(ip, error)[|ip| + 2] == 'e'
    ensures ErrorDeletingMessage(ip, error)[..|ip| + 17] == ip + ": error deleting\n"
  {
  }

  /** The rows of a table whose key column admits no duplicates. */
  predicate NoDuplicates(rows: seq<string>) {
    forall a, b :: 0 <= a < b < |rows| ==> rows[a] != rows[b]
  }

  /**
   * `DELETE FROM USERS WHERE IP = ip`: every row for `ip` is gone and
   * every other row is kept, in its order.
   */
  function Without(rows: seq<string>, ip: string): (r: seq<string>)
    ensures multiset(r) == multiset(rows)[ip := 0]
    decreases |rows|
  {
    if |rows| == 0 then []
    else
      var init := Without(rows[..|rows| - 1], ip);
      assert rows == rows[..|rows| - 1] + [rows[|rows| - 1]];
      if rows[|rows| - 1] == ip then init else init + [rows[|rows| - 1]]
  }

  /** After the delete the address is gone and every other row remains. */
  lemma WithoutMembers(rows: seq<string>, ip: string)
    ensures forall x :: x in Without(rows, ip) <==> x in rows && x != ip
  {
  }

  /** Deleting one present key removes exactly one row and keeps the key unique. */
  lemma WithoutKeepsKey(rows: seq<string>, ip: string)
    requires NoDuplicates(rows)
    ensures NoDuplicates(Without(rows, ip))
    ensures ip in rows ==> |Without(rows, ip)| == |rows| - 1
    ensures ip !in rows ==> Without(rows, ip) == rows
  {
    CountOnce(rows, ip);
    UniqueByMultiset(rows);
    var r := Without(rows, ip);
    assert |r| == |multiset(r)|;
    forall x ensures multiset(r)[x] <= 1 {
      CountOnce(rows, x);
    }
    MultisetUnique(r);
    if ip !in rows {
      WithoutAbsent(rows, ip);
    }
  }

  lemma {:induction false} WithoutAbsent(rows: seq<string>, ip: string)
    requires ip !in rows
    ensures Without(rows, ip) == rows
    decreases |rows|
  {
    if |rows| > 0 {
      WithoutAbsent(rows[..|rows| - 1], ip);
    }
  }

  lemma UniqueByMultiset(rows: seq<string>)
    requires NoDuplicates(rows)
    ensures forall x :: multiset(rows)[x] <= 1
  {
    forall x ensures multiset(rows)[x] <= 1 {
      CountOnce(rows, x);
    }
  }

  /** In a table without duplicate keys every key occurs at most once. */
  lemma {:induction false} CountOnce(rows: seq<string>, x: string)
    requires NoDuplicates(rows)
    ensures multiset(rows)[x] == if x in rows then 1 else 0
    decreases |rows|
  {
    if |rows| > 0 {
      var init := rows[..|rows| - 1];
      assert rows == init + [rows[|rows| - 1]];
      CountOnce(init, x);
      if x == rows[|rows| - 1] {
        assert x !in init;
      }
    }
  }

  /** A sequence in which every element occurs at most once has no duplicates. */
  lemma {:induction false} MultisetUnique(rows: seq<string>)
    requires forall x :: multiset(rows)[x] <= 1
    ensures NoDuplicates(rows)
  {
    forall a, b | 0 <= a < b < |rows| ensures rows[a] != rows[b] {
      var x := rows[b];
      assert rows == rows[..b] + rows[b..];
      assert multiset(rows) == multiset(rows[..b]) + multiset(rows[b..]);
      assert x in rows[b..];
      assert multiset(rows)[x] == multiset(rows[..b])[x] + multiset(rows[b..])[x];
      assert multiset(rows[..b])[x] == 0;
      assert rows[a] in rows[..b];
    }
  }

  /** `SELECT IP FROM USERS`: the table's rows as one-column tuples. */
  function RowsListing(rows: seq<string>): (users: seq<PyValue>)
    ensures |users| == |rows|
  {
    seq(|rows|, k requires 0 <= k < |rows| => Row(rows[k]))
  }

  /** The store's own listing holds `(ip,)` exactly when the store holds `ip`. */
  lemma RowsListingHolds(rows: seq<string>, ip: string)
    ensures Row(ip) in RowsListing(rows) <==> ip in rows
  {
    if Row(ip) in RowsListing(rows) {
      var k :| 0 <= k < |rows| && RowsListing(rows)[k] == Row(ip);
      assert rows[k] == ip;
    }
    if ip in rows {
      var k :| 0 <= k < |rows| && rows[k] == ip;
      assert RowsListing(rows)[k] == Row(ip);
    }
  }

  /**
   * The listing `get_users_list()` returns never holds a one-column row:
   * it is a `(data, status)` pair, and neither item is a tuple.
   */
  lemma UsersListNeverHoldsRow(ip: string, base: string, net: Network)
    ensures Row(ip) !in UsersList(base, net)
  {
  }

  /** The local `USERS` table: one row per known peer, keyed by its address. */
  class PeerStore {
    var rows: seq<string>

    ghost predicate Valid()
      reads this
    {
      NoDuplicates(rows)
    }

    constructor (initial: seq<string>)
      requires NoDuplicates(initial)
      ensures Valid() && rows == initial
    {
      rows := initial;
    }

    /**
     * `remove_user` given the listing `users` and the fate of the delete
     * transaction: not listed leaves the table alone; a committed delete
     * drops the address; a failed one is rolled back.
     */
    method RemoveUser(ip: string, users: seq<PyValue>, delete: DeleteOutcome) returns (msg: string)
      requires Valid()
      modifies this
      ensures Valid()
      ensures Row(ip) !in users ==> msg == NotConnectedMessage(ip) && rows == old(rows)
      ensures Row(ip) in users && delete.Committed? ==>
                msg == LeftMessage(ip) && rows == Without(old(rows), ip)
      ensures Row(ip) in users && delete.Failed? ==>
                msg == ErrorDeletingMessage(ip, delete.error) && rows == old(rows)
    {
      if Row(ip) !in users {
        msg := NotConnectedMessage(ip);
        return;
      }
      match delete {
        case Committed =>
          WithoutKeepsKey(rows, ip);
          rows := Without(rows, ip);
          msg := LeftMessage(ip);
        case Failed(error) =>
          msg := ErrorDeletingMessage(ip, error);
      }
    }

    /**
     * `remove_user` as written: the listing is whatever `get_users_list()`
     * returns, so the address is never found and nothing is deleted.
     */
    method Leave(ip: string, base: string, net: Network, delete: DeleteOutcome) returns (msg: string)
      requires Valid()
      modifies this
      ensures Valid()
      ensures msg == NotConnectedMessage(ip) && rows == old(rows)
    {
      var users := UsersList(base, net);
      UsersListNeverHoldsRow(ip, base, net);
      msg := RemoveUser(ip, users, delete);
    }

    /**
     * `remove_user` with the membership test made against the table's own
     * rows: a stored peer is deleted when the transaction commits.
     */
    method LeaveChecked(ip: string, delete: DeleteOutcome) returns (msg: string)
      requires Valid()
      modifies this
      ensures Valid()
      ensures ip !in old(rows) ==> msg == NotConnectedMessage(ip) && rows == old(rows)
      ensures ip in old(rows) && delete.Committed? ==>
                msg == LeftMessage(ip) && ip !in rows && |rows| == |old(rows)| - 1
                && multiset(rows) == multiset(old(rows))[ip := 0]
      ensures ip in old(rows) && delete.Failed? ==>
                msg == ErrorDeletingMessage(ip, delete.error) && rows == old(rows)
    {
      var users := RowsListing(rows);
      RowsListingHolds(rows, ip);
      WithoutKeepsKey(rows, ip);
      WithoutMembers(rows, ip);
      msg := RemoveUser(ip, users, delete);
    }
  }
}
