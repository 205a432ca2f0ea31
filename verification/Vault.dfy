/** The token vault: placeholders and the originals they stand for. */
module Vault {
  import opened Wrappers
  import opened Strings
  import opened Placeholders
  import opened RestoreOrder

  class TokenVault {
    var entries: Entries

    constructor ()
      ensures entries == map[]
    {
      entries := map[];
    }

    method Insert(placeholder: string, original: string)
      modifies this
      ensures entries == old(entries)[placeholder := original]
    {
      entries := entries[placeholder := original];
    }

    function Resolve(placeholder: string): (r: Option<string>)
      reads this
      ensures r.Some? <==> placeholder in entries
      ensures r.Some? ==> r.value == entries[placeholder]
    {
      if placeholder in entries then Some(entries[placeholder]) else None
    }

    function OriginalValues(): (values: set<string>)
      reads this
      ensures forall v :: v in values <==> exists p :: p in entries && entries[p] == v
    {
      set p | p in entries :: entries[p]
    }

    /** Replace the entries one after another, in whatever order the map yields
        them. The order shows only when a value could complete another entry's
        placeholder, and never on text whose only braces are placeholders. */
    method Restore(content: string) returns (restored: string)
      ensures exists order :: IsOrder(order, entries) && restored == RestoreInOrder(content, order, entries)
      ensures WellFormed(entries) && OrderFree(entries) ==> restored == Substitute(content, entries)
      ensures forall ps :: Clean(ps) && content == Render(ps) && WellFormed(entries) ==> restored == Filled(ps, entries)
    {
      restored := content;
      var todo := entries.Keys;
      ghost var order: seq<string> := [];
      while todo != {}
        invariant todo <= entries.Keys
        invariant forall i, j :: 0 <= i < j < |order| ==> order[i] != order[j]
        invariant forall p :: p in order <==> p in entries && p !in todo
        invariant restored == RestoreInOrder(content, order, entries)
      {
        var p :| p in todo;
        assert (order + [p])[..|order|] == order;
        assert forall k :: k in order + [p] <==> k in order || k == p;
        restored := Replace(restored, p, entries[p]);
        todo := todo - {p};
        order := order + [p];
      }
      assert IsOrder(order, entries);
      if WellFormed(entries) && OrderFree(entries) {
        AnyOrderSubstitutes(content, order, entries);
      }
      forall ps | Clean(ps) && content == Render(ps) && WellFormed(entries) ensures restored == Filled(ps, entries) {
        RestoreFillsPieces(ps, order, entries);
      }
    }
  }
}
