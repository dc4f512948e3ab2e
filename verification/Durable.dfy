/**
 mutateRuntime in internal/serve/agent.go: a record in memory over the file it
 is saved to. A save that reports failure rolls memory back, whether or not the
 file was replaced; a restart reads the file.
 */
module Durable {

  datatype Save = Saved | Refused(landed: bool)

  datatype Cell<T> = Cell(memory: T, disk: T)

  function Mutate<T(==)>(c: Cell<T>, updated: T, save: Save): Cell<T> {
    if updated == c.memory then c
    else match save
      case Saved => Cell(updated, updated)
      case Refused(landed) => if landed then c.(disk := updated) else c
  }

  function Restart<T>(c: Cell<T>): Cell<T> {
    Cell(c.disk, c.disk)
  }

  /** The change, the save, and the roll-back when the save reports failure. */
  method Persist<T(==)>(memory: T, disk: T, updated: T, save: Save) returns (memory': T, disk': T, ok: bool)
    ensures Cell(memory', disk') == Mutate(Cell(memory, disk), updated, save)
    ensures ok <==> updated == memory || save.Saved?
  {
    var previous := memory;
    memory', disk', ok := updated, disk, true;
    if memory' == previous { return; }
    match save {
      case Saved => disk' := memory';
      case Refused(landed) =>
        if landed { disk' := memory'; }
        memory', ok := previous, false;
    }
  }
}
