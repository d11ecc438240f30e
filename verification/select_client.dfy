/**
 * The "select client" dialog an "add order" dialog opens: it lists the
 * clients read when it opened, the user clicks a row, and accepting hands
 * that client's id and description back to the "add order" dialog.
 */
module SelectClient {
  import opened Wrappers
  import opened Sql
  import opened Store
  import opened Text
  import opened AddOrder

  /** `first last, address, phone`: how the label describes a client. */
  function Describe(c: ClientData): string {
    c.firstName + " " + c.lastName + ", " + c.address + ", " + c.phoneNumber
  }

  /** The text the "add order" dialog's client label gets. */
  function ClientLabel(c: ClientData): string {
    ClientHeading + LabelSep + Describe(c)
  }

  /** The client label always shows the whole description after its heading. */
  lemma ClientLabelShowsClient(c: ClientData)
    ensures HasName(ClientLabel(c))
    ensures LabelText(ClientLabel(c)) == Describe(c)
  {
    LabelOfName(ClientHeading, Describe(c));
  }

  /** A description holds the separator exactly when one of the fields does,
      or the first name ends with `:` (which the following space completes). */
  lemma {:induction false} DescribeHoldsSeparator(c: ClientData)
    ensures Contains(Describe(c), LabelSep) <==>
              || Contains(c.firstName, LabelSep)
              || (c.firstName != [] && c.firstName[|c.firstName| - 1] == ':')
              || Contains(c.lastName, LabelSep)
              || Contains(c.address, LabelSep)
              || Contains(c.phoneNumber, LabelSep)
  {
    var space, comma := " ", ", ";
    assert !Contains(space, LabelSep);
    assert !Contains(comma, LabelSep) by {
      assert comma[0..0 + |LabelSep|][0] != LabelSep[0];
    }
    var a1 := c.firstName + space;
    var a2 := a1 + c.lastName;
    var a3 := a2 + comma;
    var a4 := a3 + c.address;
    var a5 := a4 + comma;
    ContainsConcat(c.firstName, space, LabelSep);
    ContainsConcat(a1, c.lastName, LabelSep);
    ContainsConcat(a2, comma, LabelSep);
    ContainsConcat(a3, c.address, LabelSep);
    ContainsConcat(a4, comma, LabelSep);
    ContainsConcat(a5, c.phoneNumber, LabelSep);
    assert Describe(c) == a5 + c.phoneNumber;
  }

  /** The success message of an order, which takes `split(": ")[1]` of the
      client label, names the whole client exactly when no field holds the
      separator and the first name does not end with `:`. */
  lemma ClientMessageName(c: ClientData)
    ensures HasName(ClientLabel(c))
    ensures LabelName(ClientLabel(c)) == Describe(c) <==>
              && !Contains(c.firstName, LabelSep)
              && !(c.firstName != [] && c.firstName[|c.firstName| - 1] == ':')
              && !Contains(c.lastName, LabelSep)
              && !Contains(c.address, LabelSep)
              && !Contains(c.phoneNumber, LabelSep)
  {
    LabelOfName(ClientHeading, Describe(c));
    DescribeHoldsSeparator(c);
  }

  /** A client whose names, and whose address up to its first separator,
      hold no `:`: the message names the client only up to that separator. */
  lemma ClientMessageStopsInAddress(c: ClientData, q: int)
    requires ':' !in c.firstName && ':' !in c.lastName
    requires OccursAt(c.address, LabelSep, q) && ':' !in c.address[..q]
    ensures HasName(ClientLabel(c))
    ensures LabelName(ClientLabel(c)) == c.firstName + " " + c.lastName + ", " + c.address[..q]
  {
    ClientLabelShowsClient(c);
    var pre := c.firstName + " " + c.lastName + ", ";
    var text := Describe(c);
    assert text == pre + c.address + ", " + c.phoneNumber;
    var p := |pre| + q;
    assert OccursAt(text, LabelSep, p) by {
      assert text[p..p + |LabelSep|] == c.address[q..q + |LabelSep|];
    }
    assert text[..p] == pre + c.address[..q];
    forall k | 0 <= k < p ensures !OccursAt(text, LabelSep, k) {
      assert text[k] == text[..p][k];
      assert ':' !in text[..p];
      assert k + |LabelSep| <= |text| ==> text[k..k + |LabelSep|][0] == text[k];
    }
    LabelNameStopsAtFirst(ClientLabel(c), p);
  }

  /** An address such as `Rue: 5` cuts the message short: the message names
      the client only up to that separator, as `Anna Smith, Rue`. */
  lemma ClientMessageCutShort()
    ensures var c := ClientData("Anna", "Smith", "Rue: 5", "555");
            && HasName(ClientLabel(c))
            && LabelName(ClientLabel(c)) != Describe(c)
            && LabelName(ClientLabel(c)) == "Anna Smith, Rue"
  {
    var c := ClientData("Anna", "Smith", "Rue: 5", "555");
    assert OccursAt(c.address, LabelSep, 3);
    ClientMessageStopsInAddress(c, 3);
    assert c.firstName + " " + c.lastName + ", " + c.address[..3] == "Anna Smith, Rue";
  }

  class SelectClientDialog {
    /** The "add order" dialog that opened this one. */
    const parent: AddOrderDialog
    /** The clients as `get_clients` read them when the dialog opened. */
    const clients: seq<Row<ClientData>>
    /** The clicked row of the table, if any. */
    var clientIdx: Option<nat>

    /** A clicked row is a row of the table, which has one row per client. */
    ghost predicate Valid()
      reads this
    {
      clientIdx.Some? ==> clientIdx.value < |clients|
    }

    constructor (parent: AddOrderDialog, db: Database)
      ensures Valid()
      ensures this.parent == parent && clients == db.clients && clientIdx == None
    {
      this.parent := parent;
      var rows := SelectAll(db.clients);
      clients := rows;
      clientIdx := None;
    }

    /** A click on a cell of row `row`. */
    method SetClientIdx(row: nat)
      requires row < |clients|
      modifies this
      ensures Valid()
      ensures clientIdx == Some(row)
    {
      clientIdx := Some(row);
    }

    method GetClientIdx() returns (idx: Option<nat>)
      ensures idx == clientIdx
    {
      idx := clientIdx;
    }

    /** `accept`: refuse when no row was clicked; otherwise set the parent's
        client label and `client_id` from the clicked row and update its
        width. The parent's food stays as it was. */
    method Accept() returns (chosen: bool)
      requires Valid() && parent.Valid()
      modifies parent
      ensures parent.Valid()
      ensures chosen <==> clientIdx.Some?
      ensures chosen ==> && parent.clientId == Some(clients[clientIdx.value].id)
                         && parent.clientLabel == ClientLabel(clients[clientIdx.value].cols)
                         && parent.width == DialogWidth(parent.clientLabelMinWidth, parent.foodLabelMinWidth)
      ensures !chosen ==> && parent.clientId == old(parent.clientId)
                          && parent.clientLabel == old(parent.clientLabel)
                          && parent.width == old(parent.width)
      ensures parent.foodId == old(parent.foodId) && parent.foodLabel == old(parent.foodLabel)
    {
      var row := GetClientIdx();
      if row.None? {
        return false;
      }
      var client := clients[row.value];
      ClientLabelShowsClient(client.cols);
      parent.clientLabel := ClientLabel(client.cols);
      parent.clientId := Some(client.id);
      parent.UpdateWidth();
      chosen := true;
    }
  }
}
