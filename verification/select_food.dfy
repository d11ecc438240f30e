/**
 * The "select food" dialog an "add order" dialog opens: it lists the food
 * read when it opened, painted like the "delete food" dialog's rows, the
 * user clicks a row, and accepting hands that food's id and name back to
 * the "add order" dialog.
 */
module SelectFood {
  import opened Wrappers
  import opened Sql
  import opened Store
  import opened Text
  import opened AddOrder

  /** The text the "add order" dialog's food label gets. */
  function FoodLabel(foodName: string): string {
    FoodHeading + LabelSep + foodName
  }

  /** The food label always shows the whole name after its heading, while
      the success message, which takes `split(": ")[1]`, shows the whole
      name exactly when the name does not hold the separator. */
  lemma FoodLabelShowsFood(foodName: string)
    ensures HasName(FoodLabel(foodName))
    ensures LabelText(FoodLabel(foodName)) == foodName
    ensures LabelName(FoodLabel(foodName)) == foodName <==> !Contains(foodName, LabelSep)
  {
    LabelOfName(FoodHeading, foodName);
  }

  class SelectFoodDialog {
    /** The "add order" dialog that opened this one. */
    const parent: AddOrderDialog
    /** The food as `get_food` read it when the dialog opened. */
    const food: seq<Row<FoodData>>
    /** The clicked row of the table, if any. */
    var foodIdx: Option<nat>

    /** A clicked row is a row of the table, which has one row per food. */
    ghost predicate Valid()
      reads this
    {
      foodIdx.Some? ==> foodIdx.value < |food|
    }

    constructor (parent: AddOrderDialog, db: Database)
      ensures Valid()
      ensures this.parent == parent && food == db.food && foodIdx == None
    {
      this.parent := parent;
      var rows := SelectAll(db.food);
      food := rows;
      foodIdx := None;
    }

    /** A click on a cell of row `row`. */
    method SetFoodIdx(row: nat)
      requires row < |food|
      modifies this
      ensures Valid()
      ensures foodIdx == Some(row)
    {
      foodIdx := Some(row);
    }

    method GetFoodIdx() returns (idx: Option<nat>)
      ensures idx == foodIdx
    {
      idx := foodIdx;
    }

    /** `accept`: refuse when no row was clicked; otherwise set the parent's
        food label and `food_id` from the clicked row and update its width.
        The parent's client stays as it was. */
    method Accept() returns (chosen: bool)
      requires Valid() && parent.Valid()
      modifies parent
      ensures parent.Valid()
      ensures chosen <==> foodIdx.Some?
      ensures chosen ==> && parent.foodId == Some(food[foodIdx.value].id)
                         && parent.foodLabel == FoodLabel(food[foodIdx.value].cols.foodName)
                         && parent.width == DialogWidth(parent.clientLabelMinWidth, parent.foodLabelMinWidth)
      ensures !chosen ==> && parent.foodId == old(parent.foodId)
                          && parent.foodLabel == old(parent.foodLabel)
                          && parent.width == old(parent.width)
      ensures parent.clientId == old(parent.clientId) && parent.clientLabel == old(parent.clientLabel)
    {
      var row := GetFoodIdx();
      if row.None? {
        return false;
      }
      var chosenFood := food[row.value];
      FoodLabelShowsFood(chosenFood.cols.foodName);
      parent.foodLabel := FoodLabel(chosenFood.cols.foodName);
      parent.foodId := Some(chosenFood.id);
      parent.UpdateWidth();
      chosen := true;
    }
  }
}
