/** Opening a column family: replay the log, then start the transaction manager behind it. */
module ColumnFamilies {
  import opened Types
  import opened Lsm
  import opened Engine
  import opened Durability
  import opened Reopening
  import opened Transactions
  import WalCodec
  import WalReplay

  // The log files hold, record for record, what commits logged.
  ghost predicate HoldsEntries(files: seq<WalReplay.Log>, es: seq<LogEntry>, family: WalCodec.Word32) {
    && (forall i | 0 <= i < |es| :: es[i].seqno < 0x1_0000_0000_0000_0000)
    && WalReplay.Concat(files) == WalReplay.RecordsFor(es, family)
  }

  // Every record must be replayed; then numbers go on behind the larger of what was replayed and
  // what the last clean shutdown wrote down. Over the log of an engine this is Reopen.
  method Open(left: Lsm, files: seq<WalReplay.Log>, persisted: SeqNo, ghost es: seq<LogEntry>, ghost family: WalCodec.Word32)
    returns (mgr: TxManager?)
    ensures mgr == null <==> !WalReplay.AllSupported(WalReplay.Effects(WalReplay.Concat(files)))
    ensures mgr != null ==> mgr.Valid() && mgr.lsm == WalReplay.ApplyAll(left, WalReplay.Effects(WalReplay.Concat(files)))
    ensures mgr != null ==>
      mgr.nextSeq > persisted && forall r | r in WalReplay.Concat(files) :: mgr.nextSeq > r.seqno
    ensures HoldsEntries(files, es, family) ==> mgr != null && mgr.View() == Reopen(left, es, persisted)
  {
    hide WalReplay.ApplyAll, WalReplay.Effects, WalReplay.Concat, HistoryFound, WalReplay.RecordsFor, Recover;
    var replayer := new WalReplay.Replayer(left);
    var ok := replayer.RecoverFromWAL(files);
    if HoldsEntries(files, es, family) {
      WalReplay.EngineLogReplays(left, es, family);
    }
    if !ok {
      return null;
    }
    var last := if replayer.maxSequence > persisted then replayer.maxSequence else persisted;
    mgr := new TxManager(replayer.lsm, last, HistoryFound(replayer.lsm));
  }
}
