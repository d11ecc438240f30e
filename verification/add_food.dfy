/**
 * The "add food" dialog: a food name, normalised like a client's name, and
 * an optional colour picked in a colour dialog. A food whose exact name is
 * already in `food` is refused; otherwise a row is inserted, with the three
 * colour columns set when a colour was picked and NULL otherwise.
 */
module AddFood {
  import opened Wrappers
  import opened Sql
  import opened Store
  import opened Text

  /** Which message the dialog shows. */
  datatype Outcome = EmptyName | DuplicateFood | FoodAdded

  /** The columns `add_food_to_database` inserts: the name alone when no
      colour was picked, the name and the three channels otherwise. */
  function FoodColumns(foodName: string, color: Option<Rgb>): (f: FoodData)
    ensures f.foodName == foodName
    ensures color.None? <==> f.redColor.None?
    ensures color.None? <==> f.greenColor.None?
    ensures color.None? <==> f.blueColor.None?
    ensures color.Some? ==> f.redColor.value == color.value.red
                            && f.greenColor.value == color.value.green
                            && f.blueColor.value == color.value.blue
  {
    match color
    case None => FoodData(foodName, None, None, None)
    case Some(c) => FoodData(foodName, Some(c.red), Some(c.green), Some(c.blue))
  }

  /** A food row made by this dialog has either all colour columns or none. */
  predicate ColorsAllOrNothing(f: FoodData) {
    f.redColor.Some? == f.greenColor.Some? == f.blueColor.Some?
  }

  /** Food rows whose name the duplicate test finds. */
  predicate NameTaken(rows: seq<Row<FoodData>>, foodName: string) {
    exists i :: 0 <= i < |rows| && rows[i].cols.foodName == foodName
  }

  /** No two foods share a name, and every row's colour is complete or absent. */
  ghost predicate WellFormed(rows: seq<Row<FoodData>>) {
    && (forall i, j :: 0 <= i < j < |rows| ==> rows[i].cols.foodName != rows[j].cols.foodName)
    && (forall i :: 0 <= i < |rows| ==> ColorsAllOrNothing(rows[i].cols))
  }

  /** Inserting a food whose name is free keeps the table well formed. */
  lemma InsertKeepsWellFormed(rows: seq<Row<FoodData>>, foodName: string, color: Option<Rgb>)
    requires WellFormed(rows) && !NameTaken(rows, foodName)
    ensures WellFormed(Insert(rows, FoodColumns(foodName, color)))
  {
    var r := Insert(rows, FoodColumns(foodName, color));
    forall i | 0 <= i < |r| ensures ColorsAllOrNothing(r[i].cols) {
      if i < |rows| {
        assert r[i] == rows[i];
      }
    }
    forall i, j | 0 <= i < j < |r| ensures r[i].cols.foodName != r[j].cols.foodName {
      assert r[i] == rows[i];
      if j < |rows| {
        assert r[j] == rows[j];
      }
    }
  }

  /** `add_food_to_database`: select the foods with this exact name; if the
      cursor yields a row, stop; otherwise insert with or without colour. */
  method AddFoodToDatabase(db: Database, foodName: string, color: Option<Rgb>) returns (outcome: Outcome)
    requires db.Valid()
    modifies db
    ensures db.Valid()
    ensures outcome != EmptyName
    ensures outcome == DuplicateFood <==> NameTaken(old(db.food), foodName)
    ensures outcome == DuplicateFood ==> db.food == old(db.food)
    ensures outcome == FoodAdded ==> db.food == Insert(old(db.food), FoodColumns(foodName, color))
    ensures db.clients == old(db.clients) && db.profiles == old(db.profiles)
    ensures WellFormed(old(db.food)) ==> WellFormed(db.food)
  {
    var matching := Select(db.food, (f: FoodData) => f.foodName == foodName);
    WhereNonEmpty(db.food, (f: FoodData) => f.foodName == foodName);
    if |matching| > 0 {
      return DuplicateFood;
    }
    if WellFormed(db.food) {
      InsertKeepsWellFormed(db.food, foodName, color);
    }
    var data: FoodData;
    if color.None? {
      data := FoodData(foodName, None, None, None);
    } else {
      data := FoodData(foodName, Some(color.value.red), Some(color.value.green), Some(color.value.blue));
    }
    db.InsertFood(data);
    outcome := FoodAdded;
  }

  /** A colour as the colour dialog's `currentColor().getRgb()` reports it. */
  datatype Rgba = Rgba(red: Channel, green: Channel, blue: Channel, alpha: Channel)

  /** `getRgb()[:-1]`: the colour without its alpha channel. */
  function WithoutAlpha(c: Rgba): (rgb: Rgb)
    ensures Rgba(rgb.red, rgb.green, rgb.blue, c.alpha) == c
  {
    Rgb(c.red, c.green, c.blue)
  }

  class AddFoodDialog {
    /** The colour picked so far; `None` until the colour dialog is accepted. */
    var color: Option<Rgb>

    constructor ()
      ensures color == None
    {
      color := None;
    }

    method SetColor(c: Rgb)
      modifies this
      ensures color == Some(c)
    {
      color := Some(c);
    }

    method GetColor() returns (c: Option<Rgb>)
      ensures c == color
    {
      c := color;
    }

    /** `accept`: normalise the name, refuse it when empty, then add the food
        with the colour picked so far (if any). The dialog's colour is kept. */
    method Accept(db: Database, rawName: string) returns (outcome: Outcome)
      requires db.Valid()
      modifies db
      ensures db.Valid()
      ensures outcome == EmptyName <==> AllSpace(rawName)
      ensures outcome == DuplicateFood <==> !AllSpace(rawName) && NameTaken(old(db.food), Normalise(rawName))
      ensures outcome == FoodAdded ==> db.food == Insert(old(db.food), FoodColumns(Normalise(rawName), color))
      ensures outcome != FoodAdded ==> db.food == old(db.food)
      ensures db.clients == old(db.clients) && db.profiles == old(db.profiles)
      ensures WellFormed(old(db.food)) ==> WellFormed(db.food)
    {
      var foodName := Normalise(rawName);
      NormaliseEmpty(rawName);
      if foodName == "" {
        return EmptyName;
      }
      var c := GetColor();
      outcome := AddFoodToDatabase(db, foodName, c);
    }
  }

  /** The colour dialog opened from an "add food" dialog. */
  class ChooseColorDialog {
    const parent: AddFoodDialog

    constructor (parent: AddFoodDialog)
      ensures this.parent == parent
    {
      this.parent := parent;
    }

    /** `accept`: hand the current colour, without alpha, to the parent. */
    method Accept(current: Rgba)
      modifies parent
      ensures parent.color == Some(WithoutAlpha(current))
    {
      parent.SetColor(WithoutAlpha(current));
    }
  }
}
