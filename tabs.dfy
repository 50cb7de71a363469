/**
  The tab controller of app/Tabs.tsx: which tab is active, the raw text of
  the address field and the text of the last whitelist lookup, each changed
  by its own event handler.
 */
module TabsComponent {
  import Whitelist
  import opened Wrappers

  /** The two values the `state` field is ever given. */
  datatype Tab = TokenLinks | WLChecker {
    function Label(): (text: string)
      ensures (this == TokenLinks) <==> (text == "Token Links")
      ensures (this == WLChecker) <==> (text == "WL Checker")
    {
      match this
      case TokenLinks => "Token Links"
      case WLChecker => "WL Checker"
    }
  }

  class Tabs {
    var state: Tab
    var address: string
    var whitelistLevelText: string
    /** The address passed to the most recent lookup, if there was one. */
    ghost var lastLookup: Option<string>

    /** The result text is empty before any lookup and the resolver's answer for the last looked-up address after. */
    ghost predicate Valid()
      reads this
    {
      match lastLookup
      case None => whitelistLevelText == ""
      case Some(looked) => whitelistLevelText == Whitelist.Resolve(looked)
    }

    /**
      The result paragraph is rendered only on the 'WL Checker' tab, and there
      only when the result text is non-empty.
     */
    predicate ResultShown()
      reads this
    {
      state == WLChecker && whitelistLevelText != ""
    }

    /** The state on mount: the token-links tab, an empty field, no result. */
    constructor ()
      ensures Valid()
      ensures state == TokenLinks && address == "" && whitelistLevelText == "" && lastLookup == None
      ensures !ResultShown()
    {
      state := TokenLinks;
      address := "";
      whitelistLevelText := "";
      lastLookup := None;
    }

    /** A tab button: only the active tab changes; the address and the result survive the switch. */
    method SelectTab(tab: Tab)
      requires Valid()
      modifies this
      ensures Valid()
      ensures state == tab
      ensures address == old(address) && whitelistLevelText == old(whitelistLevelText) && lastLookup == old(lastLookup)
    {
      state := tab;
    }

    /** handleInputChange: the field's text is stored verbatim. */
    method HandleInputChange(value: string)
      requires Valid()
      modifies this
      ensures Valid()
      ensures address == value
      ensures state == old(state) && whitelistLevelText == old(whitelistLevelText) && lastLookup == old(lastLookup)
    {
      address := value;
    }

    /**
      handleButtonClick: the current address, unmodified, goes to the resolver
      and its answer becomes the result text, which is non-empty and so is
      shown whenever the 'WL Checker' tab is active (the only tab that has the
      button).
     */
    method HandleButtonClick()
      requires Valid()
      modifies this
      ensures Valid()
      ensures whitelistLevelText == Whitelist.Resolve(old(address)) && lastLookup == Some(old(address))
      ensures state == old(state) && address == old(address)
      ensures whitelistLevelText != ""
      ensures state == WLChecker ==> ResultShown()
    {
      var levelText := Whitelist.InteractWithWLClick(address);
      whitelistLevelText := levelText;
      lastLookup := Some(address);
      Whitelist.ResolveTotal(address);
    }
  }

  /** The result is shown exactly when the 'WL Checker' tab is active and a lookup has taken place. */
  lemma ResultShownIffLookedUp(tabs: Tabs)
    requires tabs.Valid()
    ensures tabs.ResultShown() <==> tabs.state == WLChecker && tabs.lastLookup.Some?
  {
    if tabs.lastLookup.Some? {
      Whitelist.ResolveTotal(tabs.lastLookup.value);
    }
  }
}
