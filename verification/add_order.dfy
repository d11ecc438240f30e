/**
 * The "add order" dialog of a profile tab. The client and the food are
 * picked in two sub-dialogs, which fill in the dialog's `client_id` and
 * `food_id` and the texts of its two labels; the quantity comes from a spin
 * box and the date from a date editor. Accepting inserts the order into the
 * profile's table and reports the client and food named in the labels.
 */
module AddOrder {
  import opened Wrappers
  import opened Store
  import opened Text
  import opened Dates

  /** The width the dialog keeps unless a label asks for more. */
  const BaseWidth: int := 512

  /** What separates a label's heading from the name it shows. */
  const LabelSep: string := ": "

  const ClientHeading: string := "Client"
  const FoodHeading: string := "Nourriture"

  /** `update_width`: the larger of the two labels' minimum widths when that
      exceeds `BaseWidth`, `BaseWidth` otherwise; that is, the least width
      that is at least `BaseWidth` and at least each label's minimum width. */
  function DialogWidth(clientLabelWidth: int, foodLabelWidth: int): (w: int)
    ensures w >= BaseWidth && w >= clientLabelWidth && w >= foodLabelWidth
    ensures w == BaseWidth || w == clientLabelWidth || w == foodLabelWidth
  {
    var labelWidth := if clientLabelWidth >= foodLabelWidth then clientLabelWidth else foodLabelWidth;
    if labelWidth > BaseWidth then labelWidth else BaseWidth
  }

  /** A label whose text holds the separator, as a picked client's or food's does. */
  predicate HasName(caption: string) {
    |Split(caption, LabelSep)| >= 2
  }

  /** Everything after the first separator: the name the label shows. */
  function LabelText(caption: string): (name: string)
    requires HasName(caption)
    ensures caption == Split(caption, LabelSep)[0] + LabelSep + name
  {
    var pieces := Split(caption, LabelSep);
    JoinSplit(caption, LabelSep);
    assert Join(pieces, LabelSep) == pieces[0] + LabelSep + Join(pieces[1..], LabelSep);
    Join(pieces[1..], LabelSep)
  }

  /** The second piece of a label holds no separator, starts the name the
      label shows, is that whole name exactly when the name holds no
      separator, and otherwise stops where the name's first separator starts. */
  lemma SecondPieceOfLabel(caption: string)
    requires HasName(caption)
    ensures var piece := Split(caption, LabelSep)[1];
            && !Contains(piece, LabelSep)
            && |piece| <= |LabelText(caption)| && LabelText(caption)[..|piece|] == piece
            && (piece == LabelText(caption) <==> !Contains(LabelText(caption), LabelSep))
            && (|| piece == LabelText(caption)
                || (&& |piece| + |LabelSep| <= |LabelText(caption)|
                    && LabelText(caption)[|piece|..|piece| + |LabelSep|] == LabelSep))
  {
    var pieces := Split(caption, LabelSep);
    SplitPiecesFree(caption, LabelSep, 1);
    var text := LabelText(caption);
    if |pieces| > 2 {
      assert text == pieces[1] + LabelSep + Join(pieces[2..], LabelSep) by {
        assert pieces[1..][1..] == pieces[2..];
      }
      assert OccursAt(text, LabelSep, |pieces[1]|) by {
        assert text[|pieces[1]|..|pieces[1]| + |LabelSep|] == LabelSep;
      }
    }
  }

  /** `label.text().split(": ")[1]`, what the success message shows: only
      the piece between the first and the second separator. It is the start
      of the name the label shows, holds no separator itself, is that whole
      name exactly when the name holds no separator, and otherwise is cut
      where the name's first separator starts. */
  function LabelName(caption: string): (name: string)
    requires HasName(caption)
    ensures !Contains(name, LabelSep)
    ensures |name| <= |LabelText(caption)| && LabelText(caption)[..|name|] == name
    ensures name == LabelText(caption) <==> !Contains(LabelText(caption), LabelSep)
    ensures || name == LabelText(caption)
            || (&& |name| + |LabelSep| <= |LabelText(caption)|
                && LabelText(caption)[|name|..|name| + |LabelSep|] == LabelSep)
  {
    SecondPieceOfLabel(caption);
    Split(caption, LabelSep)[1]
  }

  /** When the name a label shows holds the separator, the piece the
      success message shows is that name up to its first separator. */
  lemma LabelNameStopsAtFirst(caption: string, p: int)
    requires HasName(caption)
    requires OccursAt(LabelText(caption), LabelSep, p)
    requires forall k :: 0 <= k < p ==> !OccursAt(LabelText(caption), LabelSep, k)
    ensures LabelName(caption) == LabelText(caption)[..p]
  {
    var text := LabelText(caption);
    var name := LabelName(caption);
    assert Contains(text, LabelSep);
    assert OccursAt(text, LabelSep, |name|);
    assert text[p + 1] == LabelSep[1] && text[|name|] == LabelSep[0];
    assert !OccursAt(name, LabelSep, p);
    assert |name| == p;
  }

  /** A label made of a heading without `:`, the separator and a name: it
      shows that name in full, and `split(": ")[1]` gives back the name
      exactly when the name itself does not hold the separator. */
  lemma LabelOfName(heading: string, name: string)
    requires forall i :: 0 <= i < |heading| ==> heading[i] != ':'
    ensures HasName(heading + LabelSep + name)
    ensures LabelText(heading + LabelSep + name) == name
    ensures LabelName(heading + LabelSep + name) == name <==> !Contains(name, LabelSep)
  {
    forall k | 0 <= k < |heading| ensures !OccursAt(heading + LabelSep, LabelSep, k) {
      assert (heading + LabelSep)[k] == heading[k];
    }
    SplitAfterPrefix(heading, LabelSep, name);
    var pieces := Split(heading + LabelSep + name, LabelSep);
    assert pieces[1..] == Split(name, LabelSep);
    JoinSplit(name, LabelSep);
    SplitFirstIsWhole(name, LabelSep);
  }

  /** Which message `accept` ends with; a new order carries the row it
      inserted and the client and food the message names. */
  datatype Outcome = NotChosen | NoSuchProfile | OrderAdded(order: OrderData, client: string, food: string)

  class AddOrderDialog {
    /** The profile the dialog adds to: the name of its order table. */
    const profileName: string
    /** The date editor's minimum, the current date when the dialog opened. */
    const minimumDate: Date
    /** The labels' minimum widths, which nothing sets, so Qt reports 0. */
    const clientLabelMinWidth: int
    const foodLabelMinWidth: int

    var clientId: Option<int>
    var clientLabel: string
    var foodId: Option<int>
    var foodLabel: string
    var width: int

    /** A picked client or food has its name in the label beside it. */
    ghost predicate Valid()
      reads this
    {
      && (clientId.Some? ==> HasName(clientLabel))
      && (foodId.Some? ==> HasName(foodLabel))
    }

    constructor (profileName: string, today: Date)
      ensures Valid()
      ensures this.profileName == profileName && minimumDate == today
      ensures clientLabelMinWidth == 0 && foodLabelMinWidth == 0
      ensures clientId == None && clientLabel == "Client:"
      ensures foodId == None && foodLabel == "Nourriture:"
      ensures width == BaseWidth
    {
      this.profileName := profileName;
      minimumDate := today;
      clientLabelMinWidth, foodLabelMinWidth := 0, 0;
      clientId, clientLabel := None, "Client:";
      foodId, foodLabel := None, "Nourriture:";
      width := DialogWidth(0, 0);
    }

    /** `update_width`. */
    method UpdateWidth()
      modifies this
      ensures width == DialogWidth(clientLabelMinWidth, foodLabelMinWidth)
      ensures clientId == old(clientId) && clientLabel == old(clientLabel)
      ensures foodId == old(foodId) && foodLabel == old(foodLabel)
    {
      width := DialogWidth(clientLabelMinWidth, foodLabelMinWidth);
    }

    /** `accept`: refuse unless both a client and a food were picked, then
        `INSERT INTO <profile> (client_id, food_id, food_quantity, date)`
        with the spin box's quantity and the date in ISO form. The spin box
        holds 1 to 99 and the date editor holds dates from `minimumDate`
        up to 9999-12-31. */
    method Accept(db: Database, quantity: int, date: Date) returns (outcome: Outcome)
      requires Valid() && db.Valid()
      requires 1 <= quantity <= 99
      requires ValidDate(date) && !Before(date, minimumDate)
      modifies db
      ensures db.Valid()
      ensures outcome == NotChosen <==> clientId.None? || foodId.None?
      ensures outcome == NoSuchProfile <==> clientId.Some? && foodId.Some? && profileName !in old(db.profiles)
      ensures outcome.OrderAdded? ==>
                && outcome.order == OrderData(clientId.value, foodId.value, quantity, Iso(date))
                && db.profiles == InsertOrderRow(old(db.profiles), profileName, outcome.order)
                && outcome.client == LabelName(clientLabel)
                && outcome.food == LabelName(foodLabel)
      ensures outcome.OrderAdded? ==> ParseIso(outcome.order.date) == Some(date)
      ensures !outcome.OrderAdded? ==> db.profiles == old(db.profiles)
      ensures db.clients == old(db.clients) && db.food == old(db.food)
    {
      if clientId.None? || foodId.None? {
        return NotChosen;
      }
      var data := OrderData(clientId.value, foodId.value, quantity, Iso(date));
      var ok := db.InsertOrder(profileName, data);
      if !ok {
        return NoSuchProfile;
      }
      IsoRoundTrip(date);
      outcome := OrderAdded(data, LabelName(clientLabel), LabelName(foodLabel));
    }
  }
}
