/**
 * The "add client" dialog: normalise the four fields, refuse an empty one,
 * refuse a client whose first and last name are already in `clients`,
 * otherwise insert the client.
 */
module AddClient {
  import opened Sql
  import opened Store
  import opened Text

  /** Which message the dialog shows. */
  datatype Outcome = EmptyField | DuplicateClient | ClientAdded

  /** The tuple `accept` builds: names stripped and title-cased, address and
      phone number only stripped. */
  function UserData(firstName: string, lastName: string, address: string, phoneNumber: string): ClientData {
    ClientData(Normalise(firstName), Normalise(lastName), Strip(address), Strip(phoneNumber))
  }

  /** Every field of the tuple comes out trimmed, and the names come out
      already normal, so normalising a stored client again changes nothing. */
  lemma UserDataNormal(firstName: string, lastName: string, address: string, phoneNumber: string)
    ensures var d := UserData(firstName, lastName, address, phoneNumber);
            && Trimmed(d.firstName) && Trimmed(d.lastName) && Trimmed(d.address) && Trimmed(d.phoneNumber)
            && Normalise(d.firstName) == d.firstName && Normalise(d.lastName) == d.lastName
            && UserData(d.firstName, d.lastName, d.address, d.phoneNumber) == d
  {
    NormaliseTrimmed(firstName);
    NormaliseTrimmed(lastName);
    NormaliseIdempotent(firstName);
    NormaliseIdempotent(lastName);
    StripIdempotent(address);
    StripIdempotent(phoneNumber);
  }

  /** `"" in user_data`. */
  predicate HasEmptyField(d: ClientData) {
    d.firstName == "" || d.lastName == "" || d.address == "" || d.phoneNumber == ""
  }

  /** A field ends up empty exactly when the user typed only whitespace into it. */
  lemma EmptyFieldIsBlankInput(firstName: string, lastName: string, address: string, phoneNumber: string)
    ensures HasEmptyField(UserData(firstName, lastName, address, phoneNumber)) <==>
              AllSpace(firstName) || AllSpace(lastName) || AllSpace(address) || AllSpace(phoneNumber)
  {
    NormaliseEmpty(firstName);
    NormaliseEmpty(lastName);
    StripEmpty(address);
    StripEmpty(phoneNumber);
  }

  /** The duplicate test: equal first name and equal last name. */
  predicate SameName(a: ClientData, b: ClientData) {
    a.firstName == b.firstName && a.lastName == b.lastName
  }

  predicate NameTaken(rows: seq<Row<ClientData>>, d: ClientData) {
    exists i :: 0 <= i < |rows| && SameName(rows[i].cols, d)
  }

  /** Address and phone number play no part in the duplicate test. */
  lemma DuplicateIgnoresContact(rows: seq<Row<ClientData>>, d: ClientData, address: string, phoneNumber: string)
    ensures NameTaken(rows, d) <==> NameTaken(rows, ClientData(d.firstName, d.lastName, address, phoneNumber))
  {
  }

  /** No two clients share a (first name, last name) pair. */
  ghost predicate NamesUnique(rows: seq<Row<ClientData>>) {
    forall i, j :: 0 <= i < j < |rows| ==> !SameName(rows[i].cols, rows[j].cols)
  }

  /** Inserting a client whose name is not taken keeps names unique. */
  lemma InsertKeepsNamesUnique(rows: seq<Row<ClientData>>, d: ClientData)
    requires NamesUnique(rows) && !NameTaken(rows, d)
    ensures NamesUnique(Insert(rows, d))
  {
    var r := Insert(rows, d);
    forall i, j | 0 <= i < j < |r| ensures !SameName(r[i].cols, r[j].cols) {
      if j == |rows| {
        assert r[i] == rows[i];
      } else {
        assert r[i] == rows[i] && r[j] == rows[j];
      }
    }
  }

  /** `add_client_to_database`: select the clients with the same first and
      last name; if the cursor yields a row, stop; otherwise insert. */
  method AddClientToDatabase(db: Database, data: ClientData) returns (outcome: Outcome)
    requires db.Valid()
    modifies db
    ensures db.Valid()
    ensures outcome != EmptyField
    ensures outcome == DuplicateClient <==> NameTaken(old(db.clients), data)
    ensures outcome == DuplicateClient ==> db.clients == old(db.clients)
    ensures outcome == ClientAdded ==> db.clients == Insert(old(db.clients), data)
    ensures db.food == old(db.food) && db.profiles == old(db.profiles)
    ensures NamesUnique(old(db.clients)) ==> NamesUnique(db.clients)
  {
    var matching := Select(db.clients, (c: ClientData) => SameName(c, data));
    WhereNonEmpty(db.clients, (c: ClientData) => SameName(c, data));
    if |matching| > 0 {
      return DuplicateClient;
    }
    if NamesUnique(db.clients) {
      InsertKeepsNamesUnique(db.clients, data);
    }
    db.InsertClient(data);
    outcome := ClientAdded;
  }

  /** The part of `accept` after the tuple is built: refuse an empty field,
      then add. */
  method AcceptData(db: Database, d: ClientData) returns (outcome: Outcome)
    requires db.Valid()
    modifies db
    ensures db.Valid()
    ensures outcome == EmptyField <==> HasEmptyField(d)
    ensures outcome == DuplicateClient <==> !HasEmptyField(d) && NameTaken(old(db.clients), d)
    ensures outcome == ClientAdded ==> db.clients == Insert(old(db.clients), d)
    ensures outcome != ClientAdded ==> db.clients == old(db.clients)
    ensures db.food == old(db.food) && db.profiles == old(db.profiles)
    ensures NamesUnique(old(db.clients)) ==> NamesUnique(db.clients)
  {
    if HasEmptyField(d) {
      outcome := EmptyField;
    } else {
      outcome := AddClientToDatabase(db, d);
    }
  }

  /** `accept`: build the normalised tuple, refuse an empty field, then add. */
  method Accept(db: Database, firstName: string, lastName: string, address: string, phoneNumber: string)
    returns (outcome: Outcome)
    requires db.Valid()
    modifies db
    ensures db.Valid()
    ensures outcome == EmptyField <==> HasEmptyField(UserData(firstName, lastName, address, phoneNumber))
    ensures outcome == DuplicateClient <==>
              !HasEmptyField(UserData(firstName, lastName, address, phoneNumber))
              && NameTaken(old(db.clients), UserData(firstName, lastName, address, phoneNumber))
    ensures outcome == ClientAdded ==>
              db.clients == Insert(old(db.clients), UserData(firstName, lastName, address, phoneNumber))
    ensures outcome != ClientAdded ==> db.clients == old(db.clients)
    ensures db.food == old(db.food) && db.profiles == old(db.profiles)
    ensures NamesUnique(old(db.clients)) ==> NamesUnique(db.clients)
  {
    outcome := AcceptData(db, UserData(firstName, lastName, address, phoneNumber));
  }
}
