/**
 * The "delete client" dialog: it lists the clients read when it opened, the
 * user clicks a row, confirms, and the client with that row's id is deleted.
 * The orders that refer to the client stay in the profile tables.
 */
module DeleteClient {
  import opened Wrappers
  import opened Prompt
  import opened Sql
  import opened Store

  /** What `accept` ends in: no row was clicked, the user answered "No",
      or the client shown in the clicked row was deleted. */
  datatype Outcome = NotChosen | Cancelled | Deleted(client: Row<ClientData>)

  class DeleteClientDialog {
    /** The clients as `get_clients` read them when the dialog opened. */
    const clients: seq<Row<ClientData>>
    /** The clicked row of the table, if any. */
    var clientIdx: Option<nat>

    /** A clicked row is a row of the table, which has one row per client. */
    ghost predicate Valid()
      reads this
    {
      clientIdx.Some? ==> clientIdx.value < |clients|
    }

    constructor (db: Database)
      ensures Valid()
      ensures clients == db.clients && clientIdx == None
    {
      var rows := SelectAll(db.clients);
      clients := rows;
      clientIdx := None;
    }

    /** A click on a cell of row `row`. */
    method SetClientIdx(row: nat)
      requires row < |clients|
      modifies this
      ensures Valid()
      ensures clientIdx == Some(row)
    {
      clientIdx := Some(row);
    }

    method GetClientIdx() returns (idx: Option<nat>)
      ensures idx == clientIdx
    {
      idx := clientIdx;
    }

    /** `accept`: refuse when no row was clicked, ask for confirmation, then
        `DELETE FROM clients WHERE id = ?` with the id of the clicked row. */
    method Accept(db: Database, answer: Answer) returns (outcome: Outcome)
      requires Valid() && db.Valid()
      modifies db
      ensures db.Valid()
      ensures outcome == NotChosen <==> clientIdx.None?
      ensures outcome == Cancelled <==> clientIdx.Some? && answer == No
      ensures outcome.Deleted? ==> outcome.client == clients[clientIdx.value]
                                   && db.clients == DeleteWhereId(old(db.clients), outcome.client.id)
      ensures !outcome.Deleted? ==> db.clients == old(db.clients)
      ensures db.food == old(db.food) && db.profiles == old(db.profiles)
    {
      var row := GetClientIdx();
      if row.None? {
        return NotChosen;
      }
      var client := clients[row.value];
      if answer == No {
        return Cancelled;
      }
      db.DeleteClient(client.id);
      outcome := Deleted(client);
    }
  }
}
