/**
 * The "delete food" dialog: it lists the food read when it opened, each row
 * painted in the food's colour when it has one, the user clicks a row,
 * confirms, and the food with that row's id is deleted. The orders that
 * refer to the food stay in the profile tables.
 */
module DeleteFood {
  import opened Wrappers
  import opened Prompt
  import opened Sql
  import opened Store
  import AddFood

  /** What `accept` ends in: no row was clicked, the user answered "No",
      or the food shown in the clicked row was deleted. */
  datatype Outcome = NotChosen | Cancelled | Deleted(food: Row<FoodData>)

  /** `None not in (red_color, green_color, blue_color)`: a food has a
      colour, which paints its row, only when all three channels are set. */
  function ColorOf(f: FoodData): (c: Option<Rgb>)
    ensures c.Some? <==> f.redColor.Some? && f.greenColor.Some? && f.blueColor.Some?
  {
    if None !in [f.redColor, f.greenColor, f.blueColor]
    then Some(Rgb(f.redColor.value, f.greenColor.value, f.blueColor.value))
    else None
  }

  /** The colour the "add food" dialog stores reads back as the colour that
      was picked, and a food added without one has none. */
  lemma ColorRoundTrip(foodName: string, color: Option<Rgb>)
    ensures ColorOf(AddFood.FoodColumns(foodName, color)) == color
  {
  }

  class DeleteFoodDialog {
    /** The food as `get_food` read it when the dialog opened. */
    const food: seq<Row<FoodData>>
    /** The clicked row of the table, if any. */
    var foodIdx: Option<nat>

    /** A clicked row is a row of the table, which has one row per food. */
    ghost predicate Valid()
      reads this
    {
      foodIdx.Some? ==> foodIdx.value < |food|
    }

    constructor (db: Database)
      ensures Valid()
      ensures food == db.food && foodIdx == None
    {
      var rows := SelectAll(db.food);
      food := rows;
      foodIdx := None;
    }

    /** A click on a cell of row `row`. */
    method SetFoodIdx(row: nat)
      requires row < |food|
      modifies this
      ensures Valid()
      ensures foodIdx == Some(row)
    {
      foodIdx := Some(row);
    }

    method GetFoodIdx() returns (idx: Option<nat>)
      ensures idx == foodIdx
    {
      idx := foodIdx;
    }

    /** `accept`: refuse when no row was clicked, ask for confirmation, then
        `DELETE FROM food WHERE id = ?` with the id of the clicked row. */
    method Accept(db: Database, answer: Answer) returns (outcome: Outcome)
      requires Valid() && db.Valid()
      modifies db
      ensures db.Valid()
      ensures outcome == NotChosen <==> foodIdx.None?
      ensures outcome == Cancelled <==> foodIdx.Some? && answer == No
      ensures outcome.Deleted? ==> outcome.food == food[foodIdx.value]
                                   && db.food == DeleteWhereId(old(db.food), outcome.food.id)
      ensures !outcome.Deleted? ==> db.food == old(db.food)
      ensures db.clients == old(db.clients) && db.profiles == old(db.profiles)
    {
      var row := GetFoodIdx();
      if row.None? {
        return NotChosen;
      }
      var chosen := food[row.value];
      if answer == No {
        return Cancelled;
      }
      db.DeleteFood(chosen.id);
      outcome := Deleted(chosen);
    }
  }
}
