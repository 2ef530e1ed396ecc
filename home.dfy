/**
 * The home screen: the list of custom items as the screen holds it, the form
 * that creates one, the cascading delete, and the language switch in its header.
 */
module Home {
  import opened Wrappers
  import opened JsText
  import opened Table
  import opened Database

  /** The three interface languages, in the order the header button cycles through them. */
  const Languages: seq<string> := ["tr", "en", "ar"]

  /** `xs.indexOf(x)`: the first position of `x`, or -1 when it is absent. */
  function IndexIn(xs: seq<string>, x: string): (r: int)
    ensures -1 <= r < |xs|
    ensures r == -1 <==> x !in xs
    ensures r >= 0 ==> xs[r] == x && x !in xs[..r]
  {
    if xs == [] then -1
    else if xs[0] == x then 0
    else
      var rest := IndexIn(xs[1..], x);
      assert forall y :: y in xs <==> y == xs[0] || y in xs[1..];
      if rest == -1 then -1
      else
        assert xs[..rest + 1] == [xs[0]] + xs[1..][..rest];
        rest + 1
  }

  /** The header button: the language after the current one, wrapping around; an unknown one gives "tr". */
  function NextLanguage(language: string): (r: string)
    ensures r in Languages
    ensures language !in Languages ==> r == "tr"
  {
    Languages[(IndexIn(Languages, language) + 1) % |Languages|]
  }

  /** Three presses bring any of the languages back, after visiting the other two. */
  lemma LanguageCycle(language: string)
    requires language in Languages
    ensures NextLanguage(language) != language
    ensures NextLanguage(NextLanguage(language)) !in {language, NextLanguage(language)}
    ensures NextLanguage(NextLanguage(NextLanguage(language))) == language
  {
    assert IndexIn(Languages, "tr") == 0;
    assert IndexIn(Languages, "en") == 1 by { assert Languages[0] != "en"; }
    assert IndexIn(Languages, "ar") == 2 by { assert Languages[0] != "ar" && Languages[1] != "ar"; }
  }

  /**
   * `newZikirArabic.trim() || null`: the trimmed Arabic text, or no Arabic text at
   * all when it is empty after trimming.
   */
  function ArabicText(input: string): (r: Option<string>)
    ensures r.None? <==> AllSpace(input)
    ensures r.Some? ==> r.value == Trim(input) && r.value != []
  {
    var t := Trim(input);
    if t == [] then None else Some(t)
  }

  /** What pressing "add" on the create form came to. */
  datatype CreateOutcome =
    | EmptyName          // nothing but white space was typed
    | NameExists         // the UNIQUE constraint on `name` refused the insert
    | Created(id: int)   // the new row's id

  class HomeScreen {
    const db: Db
    /** `customZikirs`: the list the screen shows, newest first. */
    var customList: seq<CustomItem>
    /** The create form's two text fields. */
    var nameInput: string
    var arabicInput: string

    constructor (db: Db)
      ensures this.db == db && customList == [] && nameInput == "" && arabicInput == ""
    {
      this.db := db;
      customList, nameInput, arabicInput := [], "", "";
    }

    /** `loadCustomZikirs`: the table, newest first; a failed read (`readFails`) keeps the old list. */
    method LoadCustoms(readFails: bool)
      modifies this`customList
      ensures customList == if readFails then old(customList) else db.customs
    {
      if !readFails {
        customList := db.customs;
      }
    }

    /** Typing into the form. */
    method EditForm(name: string, arabic: string)
      modifies this`nameInput, this`arabicInput
      ensures nameInput == name && arabicInput == arabic
    {
      nameInput, arabicInput := name, arabic;
    }

    /**
     * `createCustomZikir`: a name that is empty after trimming is refused; otherwise
     * the trimmed name and Arabic text are inserted. A duplicate name is refused by
     * the table and leaves everything as it was; a new item is put at the head of
     * the screen's list and the form is cleared.
     */
    method CreateCustom() returns (outcome: CreateOutcome)
      requires db.Valid()
      modifies this`customList, this`nameInput, this`arabicInput, db`customs, db`nextCustomId
      ensures db.Valid()
      ensures outcome == EmptyName <==> AllSpace(old(nameInput))
      ensures outcome == NameExists <==> !AllSpace(old(nameInput)) && HasName(old(db.customs), Trim(old(nameInput)))
      ensures !outcome.Created? ==>
        customList == old(customList) && nameInput == old(nameInput) && arabicInput == old(arabicInput)
      ensures !outcome.Created? ==> db.customs == old(db.customs) && db.nextCustomId == old(db.nextCustomId)
      ensures outcome.Created? ==> outcome.id == old(db.nextCustomId) && nameInput == "" && arabicInput == ""
      ensures outcome.Created? ==>
        var item := CustomItem(outcome.id, Trim(old(nameInput)), ArabicText(old(arabicInput)));
        db.customs == [item] + old(db.customs) && customList == [item] + old(customList)
    {
      var name := Trim(nameInput);
      if name == [] {
        return EmptyName;
      }
      outcome := Submit(name, ArabicText(arabicInput));
    }

    /**
     * The insert behind the create form, on an already trimmed name: a refused insert
     * changes nothing; a new item goes to the head of the list and clears the form.
     */
    method Submit(name: string, arabic: Option<string>) returns (outcome: CreateOutcome)
      requires db.Valid()
      modifies this`customList, this`nameInput, this`arabicInput, db`customs, db`nextCustomId
      ensures db.Valid() && outcome != EmptyName
      ensures outcome == NameExists <==> HasName(old(db.customs), name)
      ensures !outcome.Created? ==>
        customList == old(customList) && nameInput == old(nameInput) && arabicInput == old(arabicInput)
      ensures !outcome.Created? ==> db.customs == old(db.customs) && db.nextCustomId == old(db.nextCustomId)
      ensures outcome.Created? ==> outcome.id == old(db.nextCustomId) && nameInput == "" && arabicInput == ""
      ensures outcome.Created? ==>
        db.customs == [CustomItem(outcome.id, name, arabic)] + old(db.customs)
        && customList == [CustomItem(outcome.id, name, arabic)] + old(customList)
    {
      var id := db.InsertCustom(name, arabic);
      if id.None? {
        return NameExists;
      }
      customList := [CustomItem(id.value, name, arabic)] + customList;
      nameInput, arabicInput := "", "";
      outcome := Created(id.value);
    }

    /**
     * `deleteCustomZikir`, once confirmed: the item's row, its records and its
     * target rows are deleted, then the list is read again; when that read fails
     * (`readFails`) the list keeps showing the deleted item.
     */
    method DeleteCustom(id: int, readFails: bool)
      requires db.Valid()
      modifies this`customList, db`customs, db`records, db`targets
      ensures db.Valid()
      ensures db.customs == WithoutCustom(old(db.customs), id)
      ensures customList == if readFails then old(customList) else db.customs
      ensures db.records == DeleteWhere(old(db.records), RecordsOfCustom(id))
      ensures db.targets == DeleteWhere(old(db.targets), TargetOfCustom(id))
    {
      db.DeleteCustom(id);
      LoadCustoms(readFails);
    }
  }

  /** Deleting an id the list does not hold leaves it as it is. */
  lemma {:induction false} WithoutAbsent(customs: seq<CustomItem>, id: int)
    requires forall i :: 0 <= i < |customs| ==> customs[i].id != id
    ensures WithoutCustom(customs, id) == customs
  {
    if customs != [] {
      WithoutAbsent(customs[1..], id);
    }
  }

  /**
   * Deleting the item just created gives back the list from before: its id is
   * fresh, above every id in the table.
   */
  lemma CreateThenDelete(customs: seq<CustomItem>, nextId: int, item: CustomItem)
    requires forall i :: 0 <= i < |customs| ==> customs[i].id < nextId
    requires item.id == nextId
    ensures WithoutCustom([item] + customs, item.id) == customs
  {
    WithoutAbsent(customs, item.id);
    assert ([item] + customs)[1..] == customs;
  }

  /** A created name is never empty and never padded, and it can be found again by name. */
  lemma CreatedNameFound(customs: seq<CustomItem>, id: int, input: string, arabic: Option<string>)
    requires !AllSpace(input)
    ensures var name := Trim(input);
      name != [] && !IsSpace(name[0]) && HasName([CustomItem(id, name, arabic)] + customs, name)
  {
    var r := [CustomItem(id, Trim(input), arabic)] + customs;
    assert r[0].name == Trim(input);
  }
}
