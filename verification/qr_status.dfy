/**
  The per-QR-code download status shown beside each gift QR code, and the
  state updaters the download handler passes to `setQrStatus`.
 */
module QrStatus {

  datatype Status = Saving | Saved | Failed

  /** The status record, keyed by QR option key. */
  type StatusMap = map<string, Status>

  /** `{ ...prev, [key]: status }`: a download starts, succeeds or fails. */
  function Mark(prev: StatusMap, key: string, status: Status): (next: StatusMap)
    ensures key in next && next[key] == status
    ensures next.Keys == prev.Keys + {key}
    ensures forall k :: k in prev && k != key ==> next[k] == prev[k]
  {
    prev[key := status]
  }

  /**
    The timer callback that hides a finished status: it deletes `key` only when
    `prev[key]` still holds the status that timer was set for, and otherwise
    hands back `prev` itself.
   */
  function ExpireIfStill(prev: StatusMap, key: string, status: Status): (next: StatusMap)
    ensures key !in next ==> key !in prev || prev[key] == status
    ensures key in next ==> key in prev && next[key] == prev[key] && prev[key] != status
    ensures forall k :: k != key ==> (k in next <==> k in prev) && (k in prev ==> next[k] == prev[k])
  {
    if key !in prev || prev[key] != status then prev
    else prev - {key}
  }

  /** A status nobody touched in between is removed by its timer, leaving every other key as it was before the download. */
  lemma ExpireAfterMark(prev: StatusMap, key: string, status: Status)
    ensures ExpireIfStill(Mark(prev, key, status), key, status) == prev - {key}
  {
  }

  /** A later download of the same code (status back to saving) survives the earlier download's timer. */
  lemma NewerDownloadSurvivesTimer(prev: StatusMap, key: string)
    ensures ExpireIfStill(Mark(Mark(prev, key, Saved), key, Saving), key, Saved) == Mark(prev, key, Saving)
    ensures ExpireIfStill(Mark(Mark(prev, key, Failed), key, Saving), key, Failed) == Mark(prev, key, Saving)
  {
  }

  /** A success timer never clears an error status, nor an error timer a success. */
  lemma TimersOnlyClearTheirOwnStatus(prev: StatusMap, key: string)
    ensures ExpireIfStill(Mark(prev, key, Failed), key, Saved) == Mark(prev, key, Failed)
    ensures ExpireIfStill(Mark(prev, key, Saved), key, Failed) == Mark(prev, key, Saved)
  {
  }

  /** Running a timer twice is the same as running it once. */
  lemma ExpireIdempotent(prev: StatusMap, key: string, status: Status)
    ensures ExpireIfStill(ExpireIfStill(prev, key, status), key, status) == ExpireIfStill(prev, key, status)
  {
  }
}
