# dino: discovery sweep and membership, modelled in Dafny

`dino` is a small peer-discovery tool for a local network. `dino init`
checks that the local dino server answers, then sends a join request to
every address of the node's own /24 subnet except its own address. Each
address that answers with status 201 is registered with the server.
Removing a peer looks the peer up in the server's listing. Only if it is
found is the peer's row deleted from the local `USERS` table, inside a
transaction that commits or rolls back.

This project models that protocol and proves its laws:

- `wrappers.dfy`: `Option`, the model of Python's `None`.
- `pytext.dfy`: the Python string builtins the addresses are built from.
  These are `str.split`, `str.join` and `str(i)`, together with the
  inverse of `str(i)`.
- `http.dfy`: `get_data`, which turns a raised request into the pair
  `({'error': msg}, 400)`, and `check_server`.
- `sweep.dfy`: the candidate addresses and the `init` loop. The loop is a
  method that keeps a log of probed addresses and a log of registrations.
- `peers.dfy`: `remove_user`, written as a method of a class that holds
  the `USERS` rows.

The network is an oracle `Request -> Transport`. For each request it
either raises, with an uninterpreted message (Python's `str(e)`), or
returns a body and a status code. One run requests each URL at most once,
so a function of the request is enough to describe it. The config file is
read as a fixed base address `ip:port`.

Three consequences of the code are worth stating:

- A sweep is often described as probing 255 addresses. The code skips a
  candidate only when it is textually equal to the base address. That
  happens only when the IP has exactly four dot-separated fields and the
  fourth is `str(i)` for some `i < 256`. Otherwise all 256 candidates are
  probed (`Sweep.SweepCount`).
- The failure message of a removal is `"<ip>: error deleting\n<detail>"`.
- `base.split(":")` unpacked into two names raises unless the base address
  has exactly one colon. In the source this happens inside the loop, at
  `i == 0`, after the liveness check and before any probe. The model
  reports it as `Unparsable`.

## Model

| member | source | states |
|---|---|---|
| `PyText.Split` | src/dino.py:122-123 | `s.split(sep)` always has at least one piece, and no piece contains the separator |
| `PyText.JoinSplit` | src/dino.py:123 | joining the pieces of a split gives back the original string |
| `PyText.SplitJoin` | src/dino.py:123 | splitting a join of pieces that contain no separator gives back the pieces |
| `PyText.Join` | src/dino.py:123 | `sep.join(parts)`; specified by `PyText.JoinSplit`, `PyText.SplitJoin` and `PyText.JoinSnoc` |
| `PyText.JoinSnoc` | src/dino.py:123 | joining one more piece appends the separator and then that piece |
| `PyText.SplitAtSep` | src/dino.py:122-123 | a separator after a separator-free head splits off exactly that head |
| `PyText.Decimal` | src/dino.py:123 | `str(n)` is non-empty, all digits, has no leading zero, and contains neither `.` nor `:` |
| `PyText.ParseDecimal` | src/dino.py:123 | `int(str(n)) == n` |
| `PyText.DecimalParse` | src/dino.py:123 | `str(int(s)) == s` for every canonical decimal text |
| `PyText.DecimalInjective` | src/dino.py:121-123 | different numbers have different decimal texts |
| `PyText.OctetTextIsDecimal` | src/dino.py:121-124 | a text is a canonical decimal below 256 exactly when it is `str(i)` for some `0 <= i < 256` |
| `Http.Normalise` | src/dino.py:42-53 | a raised request gives the error payload with its message and status 400; a response gives its own text and status; the payload is the error dict exactly when the request raised |
| `Http.NormaliseLossless` | src/dino.py:39-53 | the transport outcome can be read back from the normalised reply, so normalising loses nothing |
| `Http.RequestFor` | src/dino.py:39-48 | method code 0 sends a GET and code 1 a POST, both to `"http://" + url` |
| `Http.GetData` | src/dino.py:31-53 | the result is `None` exactly for a method code other than 0 or 1; otherwise it decodes back to what the matching request produced |
| `Http.TransportFailureIs400` | src/dino.py:41-50 | a request that raises yields exactly `({'error': msg}, 400)` and never propagates |
| `Http.CheckServer` | src/dino.py:90-98 | live exactly when the GET of the base address returns a response with status 200; a raised request (reported as 400) is never live |
| `Sweep.SplitBase` | src/dino.py:122 | the unpacking fails exactly when the colon split does not give two fields; on success the base is `ip + ":" + port` and neither half contains a colon |
| `Sweep.FirstThree` | src/dino.py:123 | the slice `[0:3]` is a prefix of min(3, n) fields |
| `Sweep.SubnetPrefix` | src/dino.py:123 | `".".join(my_ip.split('.')[0:3])` splits back at `.` into the first three fields of the node's IP (fewer if it has fewer) |
| `Sweep.CandidateIp` | src/dino.py:123 | the IP half of `new_url`; specified by `Sweep.CandidateIpFields` and `Sweep.SelfIff` |
| `Sweep.Candidate` | src/dino.py:122-123 | `new_url` for slot `i`; specified by `Sweep.CandidateEndpoint`, `Sweep.CandidateInjective` and `Sweep.CandidateIsSelf` |
| `Sweep.SelfSlot` | src/dino.py:124 | the node's own slot, when it has one, is below 256 |
| `Sweep.CandidateIpFields` | src/dino.py:123 | a candidate IP splits into the first three fields of the node's IP (fewer if it has fewer), followed by `str(i)` |
| `Sweep.CandidateEndpoint` | src/dino.py:122-123 | a candidate splits back at its colon into its IP and the node's own port |
| `Sweep.CandidateInjective` | src/dino.py:121-123 | distinct slots give distinct candidates |
| `Sweep.SelfIff` | src/dino.py:123-124 | the candidate IP of slot `i` equals the node's IP exactly when `i` is the node's own slot |
| `Sweep.CandidateIsSelf` | src/dino.py:122-125 | for a base address `ip:port`, candidate `i` equals it exactly when `i` is the node's own slot (four fields, the fourth `str(i)`) |
| `Sweep.ProbedSlots` | src/dino.py:121-125 | the slots the loop probes, in visiting order; specified by `Sweep.ProbedSlotsAscending`, `Sweep.ProbedSlotsExactly` and `Sweep.ProbedSlotsCount` |
| `Sweep.SweepTargets` | src/dino.py:121-126 | the addresses a full sweep probes; specified by `Sweep.SweepOrder`, `Sweep.SweepAddressForm`, `Sweep.SweepSkipsSelf`, `Sweep.SweepDistinct` and `Sweep.SweepCount` |
| `Sweep.ProbedSlotsAscending` | src/dino.py:121 | the visited slots are strictly ascending and below the bound |
| `Sweep.ProbedSlotsExactly` | src/dino.py:121-125 | a slot is probed exactly when it is below the bound and its candidate is not the base address |
| `Sweep.ProbedSlotsCount` | src/dino.py:121-125 | below `n`, exactly one slot is skipped when the node's own slot is below `n`, and none otherwise |
| `Sweep.SweepOrder` | src/dino.py:121-126 | the sweep probes the candidates of slots 0 through 255 in strictly ascending order, leaving out exactly the slots whose candidate is the base address |
| `Sweep.SweepAddressForm` | src/dino.py:122-123 | every probed address is `a.b.c.i:port`: the first three fields of the node's IP, `str(i)` with `i < 256`, and the node's port |
| `Sweep.SweepSkipsSelf` | src/dino.py:124-125 | the base address is never probed |
| `Sweep.SweepDistinct` | src/dino.py:121-125 | no address is probed twice |
| `Sweep.SweepCount` | src/dino.py:121-125 | 255 probes when the node's own address is a candidate, 256 otherwise; and 255 exactly when the IP has four fields and the fourth is `str(i)` for some `i < 256` |
| `Sweep.ProbeReply` | src/dino.py:126 | the probe reply decodes back to the outcome of the GET of `"http://" + c + "/join"`; its payload is the error dict exactly when that request raised, and then its status is 400 |
| `Sweep.Registrations` | src/dino.py:129-131 | the addresses handed to `add_user`; specified by `Sweep.RegistrationsExactly`, `Sweep.RegistrationsInOrder` and `Sweep.RegistrationsDistinct` |
| `Sweep.RaisedProbeNeverRegistered` | src/dino.py:126-131 | a candidate whose join request raised is never registered, because its status is 400 |
| `Sweep.RegistrationsExactly` | src/dino.py:126-131 | an address is registered exactly when it was probed and its join request answered 201 |
| `Sweep.RegistrationsInOrder` | src/dino.py:121-131 | registrations happen in probe order |
| `Sweep.RegistrationsDistinct` | src/dino.py:121-131 | distinct probes give distinct registrations |
| `Sweep.Init` | src/dino.py:107-131 | a failed liveness check gives `ServerDown` with no probe and no registration; an unparsable base gives no probe; otherwise the probe log is the sweep's target list and the registration log is its 201-answering subsequence |
| `Peers.UsersList` | src/dino.py:56-60 | `get_users_list()` is the pair of the GET of `"http://" + base`: `({'error': msg}, 400)` when it raised, `(text, status)` of the response otherwise; neither item is a tuple |
| `Peers.UsersListNeverHoldsRow` | src/dino.py:71-73 | `(user_ip,) in get_users_list()` is false for every address and every server response |
| `Peers.NotConnectedMessage` | src/dino.py:74 | `"%s: not connected!" % user_ip`; specified by `Peers.MessagesTellBranches` |
| `Peers.LeftMessage` | src/dino.py:81 | `"%s: left" % user_ip`; specified by `Peers.MessagesTellBranches` |
| `Peers.ErrorDeletingMessage` | src/dino.py:84 | `"%s: error deleting\n%s" % (user_ip, str(e))`; specified by `Peers.MessagesTellBranches` |
| `Peers.MessagesTellBranches` | src/dino.py:74-84 | the three answers start with `ip + ": "`, the next character tells them apart, and a failed delete starts with `ip + ": error deleting\n"` |
| `Peers.Without` | src/dino.py:79 | the delete removes every row for the address and keeps every other row, counted with multiplicity |
| `Peers.WithoutMembers` | src/dino.py:79 | after the delete a row is present exactly when it was present before and is not the removed address |
| `Peers.WithoutKeepsKey` | src/dino.py:79-81 | on a table without duplicate keys, deleting a present key removes exactly one row and keeps keys unique; deleting an absent key changes nothing |
| `Peers.RowsListingHolds` | src/dino.py:73 | the table's own one-column rows contain `(ip,)` exactly when the table holds `ip` |
| `Peers.PeerStore.RemoveUser` | src/dino.py:63-87 | not listed: "not connected!" and the table is unchanged; listed with a committed delete: "left" and the address's row is deleted; listed with a failed delete: "error deleting\n" plus the detail, rolled back to the unchanged table; keys stay unique |
| `Peers.PeerStore.Leave` | src/dino.py:63-75 | as written, removing any peer answers "not connected!" and leaves the table unchanged |
| `Peers.PeerStore.LeaveChecked` | src/dino.py:63-87 | with the membership test against the table's own rows, a stored peer is deleted on commit (one row fewer, the address absent, all other rows kept) and an absent one is reported as not connected |

## Left out

- The HTTP calls `requests.get` and `requests.post` are the `Network` oracle. Timeouts and the wording of exception messages are not modelled.
- `params` of `get_data` is always `None` at every call site in the core, so the model does not carry it.
- The transport-failure message is uninterpreted. Python's `str(e)` may be empty, so the model does not promise a non-empty message.
- Reading `config.ini` (`get_base_url`, `get_database`) is not modelled. The base address is a fixed input. The re-reads inside the loop are assumed to return the same value each time.
- SQLite connection, cursor, commit, rollback and close are collapsed into one delete outcome, commit or failure. A failure leaves the table as it was. The path where `get_database()` itself raises is not modelled. There `db` is `None` and the `except`/`finally` blocks raise again.
- `dinoserver.add_user` is external. A registration is an entry appended to the registration log.
- `click` commands and `echo` output are not modelled. This includes printing a truthy probe payload (src/dino.py:127-128), which changes no state.
- No concurrency exists in the source, and none is modelled. Key exchange is only a comment in the source.
- Liveness idempotence holds trivially: `CheckServer` is a function of the base address and the oracle.

## Findings

| source | as written | input that shows it | evidently intended | confidence | as-written member | corrected member |
|---|---|---|---|---|---|---|
| src/dino.py:71-73 | `users = get_users_list()` is the pair `(data, status)`, and `(user_ip,) in users` compares the one-tuple with the payload and with the integer status, so the test is always false | a server listing that names `10.0.0.5:5000` with status 200, and a request to remove `10.0.0.5:5000`: the answer is `"10.0.0.5:5000: not connected!"` and the row stays | test membership among the listed peers' one-column rows (what `SELECT IP FROM USERS` returns), so that a listed peer is deleted. The corrected member takes the server's listing to be the same `USERS` rows; `Peers.PeerStore.RemoveUser` already covers an arbitrary listing of one-tuples | high; not executed | `Peers.PeerStore.Leave` (with `Peers.UsersListNeverHoldsRow`) | `Peers.PeerStore.LeaveChecked` (with `Peers.RowsListingHolds`) |
