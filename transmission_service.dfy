/**
  The torrent-removal gateway: `TransmissionService` asks the Transmission
  daemon whether a torrent exists and removes it, never raising.

  The daemon is a map from info-hash to torrent name, plus the set of hashes
  whose downloaded data has been deleted. Connecting, looking up and
  removing are RPC calls that may raise; where one raises, and with what, is
  an explicit `Fault` argument. Which exception the client library raises
  for an unknown hash is not visible here, so it is a setting of the
  service (`missing`).
 */
module Transmission {
  import opened Wrappers

  /** `transmission_rpc.error.TransmissionError`, or any other exception. */
  datatype ErrorKind = TransmissionError | OtherError

  datatype RpcError = RpcError(kind: ErrorKind, message: string)

  /** The RPC step that raises, if any: creating the client, `get_torrent`, or `remove_torrent`. */
  datatype Fault = NoFault | ClientFails(e: RpcError) | LookupFails(e: RpcError) | RemovalFails(e: RpcError)

  /** The daemon's torrents (hash to name) and the hashes whose data was deleted with them. */
  datatype DaemonState = DaemonState(torrents: map<string, string>, dataDeleted: set<string>)

  /** The dictionary `remove_torrent` returns. */
  datatype RemoveResult = RemoveResult(success: bool, found: bool, message: string, error: Option<string>, torrentName: Option<string>)

  /** What `client.get_torrent(hash)` gives: the torrent's name, or the exception it raises. */
  function Lookup(d: DaemonState, hash: string, missing: RpcError, fault: Fault): (r: Result<string, RpcError>)
    ensures fault.LookupFails? ==> r == Err(fault.e)
    ensures !fault.LookupFails? ==> (r.Ok? <==> hash in d.torrents)
    ensures r.Ok? ==> hash in d.torrents && r.value == d.torrents[hash]
  {
    if fault.LookupFails? then Err(fault.e)
    else if hash in d.torrents then Ok(d.torrents[hash])
    else Err(missing)
  }

  /** `torrent_exists`: true exactly when the client is created and the lookup succeeds. */
  function ExistsOutcome(d: DaemonState, hash: string, missing: RpcError, fault: Fault): (r: bool)
    ensures r <==> !fault.ClientFails? && !fault.LookupFails? && hash in d.torrents
  {
    if fault.ClientFails? then false else Lookup(d, hash, missing, fault).Ok?
  }

  /** The daemon after `client.remove_torrent(hash, delete_data=deleteData)`. */
  function Removed(d: DaemonState, hash: string, deleteData: bool): DaemonState {
    DaemonState(d.torrents - {hash}, if deleteData then d.dataDeleted + {hash} else d.dataDeleted)
  }

  /** The failure dictionary for an exception caught by the outer handlers. */
  function ErrorResult(e: RpcError): RemoveResult {
    RemoveResult(false, false, e.message,
      Some(if e.kind == TransmissionError then "Transmission error" else "Connection error"), None)
  }

  /**
    `remove_torrent`: a `TransmissionError` from the lookup means "not
    found", which is a success; a found torrent is removed and its name
    reported; any other exception becomes a failure dictionary.
   */
  function RemovalOutcome(d: DaemonState, hash: string, deleteData: bool, missing: RpcError, fault: Fault)
    : (out: (DaemonState, RemoveResult))
    ensures out.1.found ==> out.1.success
    ensures out.1.found <==> fault == NoFault && hash in d.torrents
    ensures out.1.found ==>
      && out.0 == Removed(d, hash, deleteData)
      && out.1.torrentName == Some(d.torrents[hash])
      && out.1.message == "Torrent removed from Transmission: " + d.torrents[hash]
    ensures !out.1.found ==> out.0 == d && out.1.torrentName.None?
    ensures out.1.success && !out.1.found ==> out.1.message == "Torrent not found in Transmission: " + hash
    ensures out.1.success <==> out.1.error.None?
    ensures !out.1.success ==> out.1.error == Some("Transmission error") || out.1.error == Some("Connection error")
  {
    if fault.ClientFails? then (d, ErrorResult(fault.e))
    else
      match Lookup(d, hash, missing, fault)
      case Err(e) =>
        if e.kind == TransmissionError then
          (d, RemoveResult(true, false, "Torrent not found in Transmission: " + hash, None, None))
        else
          (d, ErrorResult(e))
      case Ok(name) =>
        if fault.RemovalFails? then (d, ErrorResult(fault.e))
        else (Removed(d, hash, deleteData), RemoveResult(true, true, "Torrent removed from Transmission: " + name, None, Some(name)))
  }

  /** `torrent_exists` answers exactly the question `remove_torrent` acts on: is the hash found. */
  lemma ExistsIffRemovalFinds(d: DaemonState, hash: string, deleteData: bool, missing: RpcError)
    ensures ExistsOutcome(d, hash, missing, NoFault) <==> hash in d.torrents
    ensures ExistsOutcome(d, hash, missing, NoFault) <==> RemovalOutcome(d, hash, deleteData, missing, NoFault).1.found
  {
  }

  /** Any failure on the way makes `torrent_exists` answer false rather than raise. */
  lemma ExistsFalseOnFailure(d: DaemonState, hash: string, missing: RpcError, fault: Fault)
    requires fault.ClientFails? || fault.LookupFails?
    ensures !ExistsOutcome(d, hash, missing, fault)
  {
  }

  /** Removing a hash the daemon does not know succeeds with `found=false` and changes nothing, when the client raises `TransmissionError` for it. */
  lemma RemoveAbsentSucceeds(d: DaemonState, hash: string, deleteData: bool, missing: RpcError)
    requires hash !in d.torrents && missing.kind == TransmissionError
    ensures RemovalOutcome(d, hash, deleteData, missing, NoFault)
      == (d, RemoveResult(true, false, "Torrent not found in Transmission: " + hash, None, None))
  {
  }

  /** If the client raises anything else for an unknown hash, the same call is reported as a connection error. */
  lemma RemoveAbsentWithOtherError(d: DaemonState, hash: string, deleteData: bool, missing: RpcError)
    requires hash !in d.torrents && missing.kind == OtherError
    ensures RemovalOutcome(d, hash, deleteData, missing, NoFault) == (d, ErrorResult(missing))
    ensures RemovalOutcome(d, hash, deleteData, missing, NoFault).1.error == Some("Connection error")
  {
  }

  /** A `TransmissionError` during the lookup is read as "not found", even for a torrent that is there. */
  lemma LookupErrorReadsAsNotFound(d: DaemonState, hash: string, deleteData: bool, missing: RpcError, message: string)
    ensures var out := RemovalOutcome(d, hash, deleteData, missing, LookupFails(RpcError(TransmissionError, message)));
      out.0 == d && out.1.success && !out.1.found
  {
  }

  /** A removal touches only the removed hash: every other torrent keeps its name. */
  lemma RemovalTouchesOnlyHash(d: DaemonState, hash: string, deleteData: bool, missing: RpcError, fault: Fault)
    ensures var after := RemovalOutcome(d, hash, deleteData, missing, fault).0;
      && (forall h :: h != hash ==> (h in after.torrents <==> h in d.torrents))
      && (forall h :: h != hash && h in d.torrents ==> after.torrents[h] == d.torrents[h])
      && (hash !in after.torrents <==> hash !in d.torrents || RemovalOutcome(d, hash, deleteData, missing, fault).1.found)
  {
  }

  /** `delete_data` reaches the daemon unchanged: the data goes with the torrent exactly when it is true. */
  lemma DeleteDataForwarded(d: DaemonState, hash: string, deleteData: bool, missing: RpcError)
    requires hash in d.torrents && hash !in d.dataDeleted
    ensures hash in RemovalOutcome(d, hash, deleteData, missing, NoFault).0.dataDeleted <==> deleteData
  {
  }

  /** A second removal of the same hash finds nothing and changes nothing. */
  lemma RemoveTwice(d: DaemonState, hash: string, deleteData: bool, missing: RpcError)
    requires missing.kind == TransmissionError
    ensures var first := RemovalOutcome(d, hash, deleteData, missing, NoFault);
      var second := RemovalOutcome(first.0, hash, deleteData, missing, NoFault);
      second.0 == first.0 && second.1.success && !second.1.found
  {
  }

  /** The daemon the service talks to. */
  class Daemon {
    var torrents: map<string, string>
    var dataDeleted: set<string>

    function State(): DaemonState
      reads this
    {
      DaemonState(torrents, dataDeleted)
    }

    constructor (s: DaemonState)
      ensures State() == s
    {
      torrents := s.torrents;
      dataDeleted := s.dataDeleted;
    }
  }

  /** `TransmissionService`. */
  class TransmissionService {
    /** What the client library raises when asked for an unknown hash. */
    const missing: RpcError

    constructor (missing: RpcError)
      ensures this.missing == missing
    {
      this.missing := missing;
    }

    /** `torrent_exists`: never raises; any failure answers false. */
    method TorrentExists(d: Daemon, hash: string, fault: Fault) returns (r: bool)
      ensures r == ExistsOutcome(d.State(), hash, missing, fault)
      ensures r ==> hash in d.torrents
    {
      if fault.ClientFails? {
        return false;
      }
      if fault.LookupFails? || hash !in d.torrents {
        return false;
      }
      r := true;
    }

    /** `remove_torrent`, with `delete_data` defaulting to true. */
    method RemoveTorrent(d: Daemon, hash: string, fault: Fault, deleteData: bool := true) returns (r: RemoveResult)
      modifies d
      ensures (d.State(), r) == RemovalOutcome(old(d.State()), hash, deleteData, missing, fault)
    {
      if fault.ClientFails? {
        return ErrorResult(fault.e);
      }
      var torrentName: string;
      if fault.LookupFails? || hash !in d.torrents {
        var e := if fault.LookupFails? then fault.e else missing;
        if e.kind == TransmissionError {
          return RemoveResult(true, false, "Torrent not found in Transmission: " + hash, None, None);
        }
        return ErrorResult(e);
      }
      torrentName := d.torrents[hash];
      if fault.RemovalFails? {
        return ErrorResult(fault.e);
      }
      d.torrents := d.torrents - {hash};
      if deleteData {
        d.dataDeleted := d.dataDeleted + {hash};
      }
      r := RemoveResult(true, true, "Torrent removed from Transmission: " + torrentName, None, Some(torrentName));
    }
  }
}
