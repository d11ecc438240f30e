/**
 * The "add profile" dialog: a profile name, normalised like a client's name,
 * is refused when empty or already in the list of profiles the dialog was
 * opened with; otherwise `CREATE TABLE IF NOT EXISTS` runs with that name.
 */
module AddProfile {
  import opened Store
  import opened Text

  /** Which message the dialog shows; a new profile carries its name. */
  datatype Outcome = EmptyName | DuplicateProfile | ProfileAdded(name: string)

  /** The checks `accept` makes before it touches the database. */
  function Check(profiles: seq<string>, rawName: string): (o: Outcome)
    ensures o == EmptyName <==> AllSpace(rawName)
    ensures o == DuplicateProfile <==> !AllSpace(rawName) && Normalise(rawName) in profiles
    ensures o.ProfileAdded? ==> o.name == Normalise(rawName) && o.name !in profiles
    ensures o.ProfileAdded? ==> o.name != "" && Trimmed(o.name) && Normalise(o.name) == o.name
  {
    var name := Normalise(rawName);
    NormaliseEmpty(rawName);
    if name == "" then EmptyName
    else if name in profiles then DuplicateProfile
    else
      NormaliseTrimmed(rawName);
      NormaliseIdempotent(rawName);
      ProfileAdded(name)
  }

  /** The name a profile gets is the normalised input, so it ignores the case
      the user typed it in and the whitespace around it. */
  lemma CheckIgnoresCase(profiles: seq<string>, a: string, b: string)
    requires LowerAll(Strip(a)) == LowerAll(Strip(b))
    ensures Check(profiles, a) == Check(profiles, b)
  {
    NormaliseIgnoresCase(a, b);
    NormaliseEmpty(a);
    NormaliseEmpty(b);
  }

  /** A normalised name that is not listed, when every table is listed and
      normalised, names no existing table, so SQLite creates it empty. */
  lemma UnlistedNameGetsTable(profiles: seq<string>, tables: ProfileTables, name: string)
    requires forall p :: p in tables ==> p in profiles && Normalise(p) == p
    requires Normalise(name) == name && name !in profiles
    requires !SameTableName(name, ClientsTable) && !SameTableName(name, FoodTable)
    ensures CreateIfNotExists(tables, name) == tables[name := []]
  {
    forall p | p in tables ensures !SameTableName(p, name) {
      if SameTableName(p, name) {
        NormalNamesCaseDistinct(p, name);
      }
    }
    assert !TableExists(tables, name);
  }

  /** When every listed profile is a table and every table name came out of
      this dialog (so is normalised), the case-sensitive list test is as
      strong as SQLite's case-insensitive one: an accepted name that is not
      `food` or `clients` gets a new, empty table of its own. */
  lemma AddedProfileGetsTable(profiles: seq<string>, tables: ProfileTables, rawName: string)
    requires forall p :: p in tables ==> p in profiles && Normalise(p) == p
    requires Check(profiles, rawName).ProfileAdded?
    requires !SameTableName(Normalise(rawName), ClientsTable) && !SameTableName(Normalise(rawName), FoodTable)
    ensures var name := Check(profiles, rawName).name;
            CreateIfNotExists(tables, name) == tables[name := []]
  {
    var name := Check(profiles, rawName).name;
    UnlistedNameGetsTable(profiles, tables, name);
  }

  /** A profile typed as `food` or `clients`, in any case, passes the
      dialog's checks (as `Food` or `Clients`), yet SQLite finds the
      existing table of that name and creates nothing. */
  lemma ReservedProfileCreatesNothing(tables: ProfileTables, rawName: string)
    requires LowerAll(Strip(rawName)) == FoodTable || LowerAll(Strip(rawName)) == ClientsTable
    ensures !AllSpace(rawName)
    ensures CreateIfNotExists(tables, Normalise(rawName)) == tables
  {
    var t := Strip(rawName);
    var name := Normalise(rawName);
    TitleLower(t);
    assert LowerAll(name) == LowerAll(t);
    ReservedNameCreatesNothing(tables, name);
    assert |t| == |LowerAll(t)| > 0;
    StripEmpty(rawName);
  }

  class AddProfileDialog {
    /** The profile names the dialog was opened with. */
    const profiles: seq<string>

    constructor (profiles: seq<string>)
      ensures this.profiles == profiles
    {
      this.profiles := profiles;
    }

    /** `accept`: normalise the name, refuse it when empty or already listed,
        otherwise create the profile's table (`add_profile_to_database`). */
    method Accept(db: Database, rawName: string) returns (outcome: Outcome)
      requires db.Valid()
      modifies db
      ensures db.Valid()
      ensures outcome == Check(profiles, rawName)
      ensures outcome.ProfileAdded? ==> db.profiles == CreateIfNotExists(old(db.profiles), outcome.name)
      ensures !outcome.ProfileAdded? ==> db.profiles == old(db.profiles)
      ensures db.clients == old(db.clients) && db.food == old(db.food)
    {
      var profileName := Normalise(rawName);
      if profileName == "" {
        return EmptyName;
      }
      if profileName in profiles {
        return DuplicateProfile;
      }
      db.CreateProfileTable(profileName);
      outcome := ProfileAdded(profileName);
    }
  }
}
