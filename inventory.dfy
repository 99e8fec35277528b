/**
 * The inventory handlers of the Flask back end as methods of a store that
 * holds the two tables. Each method does what its handler does to the
 * tables between connecting and committing; request parsing, JSON and
 * HTTP status codes are replaced by parameters and a Result.
 */
module Inventory {
  import opened Wrappers
  import opened Tables
  import opened DataUrl

  /** What decoding the base64 payload and writing it under `uploads/` produced. */
  datatype SaveOutcome = Saved(path: string) | SaveFailed(reason: string)

  /**
   * The image step of both machine handlers: no image when none (or "") is
   * sent; otherwise the payload after the data-URL prefix is handed to
   * `save`, whose failure is the handler's image-save error.
   */
  function SaveImage(image: Option<string>, save: string -> SaveOutcome): (r: Result<Option<string>, TableError>)
    ensures r == Success(None) <==> !Truthy(image)
    ensures Truthy(image) && save(StripDataUrlPrefix(image.value)).Saved? ==>
      r == Success(Some(save(StripDataUrlPrefix(image.value)).path))
    ensures r.Failure? <==> Truthy(image) && save(StripDataUrlPrefix(image.value)).SaveFailed?
    ensures r.Success? && r.value.Some? ==> Truthy(image) && save(StripDataUrlPrefix(image.value)) == Saved(r.value.value)
    ensures r.Failure? ==>
      (Truthy(image) && save(StripDataUrlPrefix(image.value)).SaveFailed?
       && r.error == ImageSaveFailed(save(StripDataUrlPrefix(image.value)).reason))
  {
    if !Truthy(image) then Success(None)
    else match save(StripDataUrlPrefix(image.value))
      case Saved(path) => Success(Some(path))
      case SaveFailed(reason) => Failure(ImageSaveFailed(reason))
  }

  /** The `substations` and `machines` tables of `data/substation.db`. */
  class Store {
    var substations: seq<Substation>
    var machines: seq<Machine>
    var nextSubstationId: nat
    var nextMachineId: nat

    ghost predicate Valid()
      reads this
    {
      && SubstationsWellFormed(substations, nextSubstationId)
      && MachinesWellFormed(machines, nextMachineId)
    }

    /** `init_db` on a fresh database: both tables empty, AUTOINCREMENT starting at 1. */
    constructor ()
      ensures Valid()
      ensures substations == [] && machines == []
      ensures nextSubstationId == 1 && nextMachineId == 1
    {
      substations, machines := [], [];
      nextSubstationId, nextMachineId := 1, 1;
    }

    /** `create_substation`: on an error nothing changes; otherwise one row is appended. */
    method CreateSubstation(name: Option<string>) returns (r: Result<Substation, TableError>)
      requires Valid()
      modifies this
      ensures Valid()
      ensures r == AddSubstation(old(substations), old(nextSubstationId), name)
      ensures r.Success? ==> substations == old(substations) + [r.value] && nextSubstationId == old(nextSubstationId) + 1
      ensures r.Failure? ==> substations == old(substations) && nextSubstationId == old(nextSubstationId)
      ensures machines == old(machines) && nextMachineId == old(nextMachineId)
    {
      AddSubstationOutcome(substations, nextSubstationId, name);
      if name.None? || name.value == "" {
        return Failure(EmptyName);
      }
      if NameTaken(substations, name.value) {
        return Failure(DuplicateName);
      }
      var row := Substation(nextSubstationId, name.value);
      substations := substations + [row];
      nextSubstationId := nextSubstationId + 1;
      r := Success(row);
    }

    /** `get_substations`: every substation, in ascending name order. */
    method GetSubstations() returns (r: seq<Substation>)
      ensures ByNameAscending(r)
      ensures multiset(r) == multiset(substations)
    {
      r := SortByName(substations);
      SortByNameOrdered(substations);
      SortByNamePermutation(substations);
    }

    /** `get_machines`: the loop over the selected rows. */
    method GetMachines(substationId: nat) returns (r: seq<MachineSummary>)
      ensures r == MachinesOf(machines, substationId)
    {
      r := [];
      for i := 0 to |machines|
        invariant r == MachinesOf(machines[..i], substationId)
      {
        var row := machines[i];
        if row.substationId == substationId {
          r := r + [MachineSummary(row.id, row.x, row.y, OrEmpty(row.name), OrEmpty(row.info), OrEmpty(row.imagePath))];
        }
        assert machines[..i + 1][..i] == machines[..i];
      }
      assert machines[..|machines|] == machines;
    }

    /** `get_machine`: the machine with that id, or not found. */
    method GetMachine(id: nat) returns (r: Result<MachineDetail, TableError>)
      requires Valid()
      ensures r.Failure? <==> forall j :: 0 <= j < |machines| ==> machines[j].id != id
      ensures r.Failure? ==> r.error == MachineNotFound
      ensures r.Success? ==> exists j :: 0 <= j < |machines| && machines[j].id == id && r.value == DetailOf(machines[j])
    {
      match FindById(machines, id)
      case None =>
        r := Failure(MachineNotFound);
      case Some(i) =>
        var row := machines[i];
        r := Success(MachineDetail(row.id, row.substationId, row.x, row.y,
                                   OrEmpty(row.name), OrEmpty(row.info), OrEmpty(row.imagePath)));
    }

    /**
     * `create_or_update_machine`: missing coordinates are refused first,
     * then a failed image save; neither changes anything. Otherwise the row
     * at the cell is updated in place, or a new row is appended under the
     * next id. The response echoes the request, with the new image path or
     * None, under the row's id.
     */
    method CreateOrUpdateMachine(substationId: Option<int>, x: Option<int>, y: Option<int>,
                                 name: Option<string>, info: Option<string>,
                                 image: Option<string>, save: string -> SaveOutcome)
      returns (r: Result<Machine, TableError>)
      requires Valid()
      modifies this
      ensures Valid()
      ensures substations == old(substations) && nextSubstationId == old(nextSubstationId)
      ensures substationId.None? || x.None? || y.None? ==>
        r == Failure(MissingParameters) && machines == old(machines) && nextMachineId == old(nextMachineId)
      ensures substationId.Some? && x.Some? && y.Some? && SaveImage(image, save).Failure? ==>
        r == Failure(SaveImage(image, save).error) && machines == old(machines) && nextMachineId == old(nextMachineId)
      ensures substationId.Some? && x.Some? && y.Some? && SaveImage(image, save).Success? ==>
        var sid, px, py, path := substationId.value, x.value, y.value, SaveImage(image, save).value;
        var u := UpsertMachine(old(machines), old(nextMachineId), sid, px, py, name, info, path);
        && machines == u.rows
        && nextMachineId == (if FindAtCell(old(machines), sid, px, py).None? then old(nextMachineId) + 1 else old(nextMachineId))
        && r == Success(Machine(u.id, sid, px, py, name, info, path))
    {
      if substationId.None? || x.None? || y.None? {
        return Failure(MissingParameters);
      }
      var sid, px, py := substationId.value, x.value, y.value;
      var saved := SaveImage(image, save);
      if saved.Failure? {
        return Failure(saved.error);
      }
      var path := saved.value;
      UpsertKeepsWellFormed(machines, nextMachineId, sid, px, py, name, info, path);
      match FindAtCell(machines, sid, px, py)
      case Some(i) =>
        var row := machines[i];
        if Truthy(path) {
          machines := machines[i := row.(name := name, info := info, imagePath := path)];
        } else {
          machines := machines[i := row.(name := name, info := info)];
        }
        r := Success(Machine(row.id, sid, px, py, name, info, path));
      case None =>
        var id := nextMachineId;
        machines := machines + [Machine(id, sid, px, py, name, info, path)];
        nextMachineId := nextMachineId + 1;
        r := Success(Machine(id, sid, px, py, name, info, path));
    }

    /**
     * `update_machine`: an unknown id is refused first, then a failed image
     * save; neither changes anything. Otherwise the row's name and info are
     * overwritten and its image path replaced only when an image was saved.
     */
    method UpdateMachine(id: nat, name: Option<string>, info: Option<string>,
                         image: Option<string>, save: string -> SaveOutcome)
      returns (r: Result<(), TableError>)
      requires Valid()
      modifies this
      ensures Valid()
      ensures substations == old(substations) && nextSubstationId == old(nextSubstationId)
      ensures nextMachineId == old(nextMachineId)
      ensures (forall j :: 0 <= j < |old(machines)| ==> old(machines)[j].id != id) ==>
        r == Failure(MachineNotFound) && machines == old(machines)
      ensures (exists j :: 0 <= j < |old(machines)| && old(machines)[j].id == id) && SaveImage(image, save).Failure? ==>
        r == Failure(SaveImage(image, save).error) && machines == old(machines)
      ensures (exists j :: 0 <= j < |old(machines)| && old(machines)[j].id == id) && SaveImage(image, save).Success? ==>
        var updated := ApplyMachineUpdate(old(machines), id, name, info, SaveImage(image, save).value);
        r == Success(()) && updated.Success? && machines == updated.value
    {
      match FindById(machines, id)
      case None =>
        r := Failure(MachineNotFound);
      case Some(i) =>
        var imagePath := machines[i].imagePath;
        var saved := SaveImage(image, save);
        if saved.Failure? {
          return Failure(saved.error);
        }
        UpdateMachineOutcome(machines, nextMachineId, id, name, info, saved.value);
        if saved.value.Some? {
          imagePath := saved.value;
        }
        machines := machines[i := machines[i].(name := name, info := info, imagePath := imagePath)];
        r := Success(());
    }
  }
}
