/** The rock-paper-scissors round: the win/lose/draw rule and the checked
    round that pairs the player's choice with the CPU's. */
module Rps {
  import opened Results

  const ValidChoices: seq<string> := ["rock", "paper", "scissors"]

  /** `play` raises `ValueError` for a choice outside ValidChoices. */
  datatype RpsError = InvalidChoice(choice: string)

  /** `determine_result`: the outcome for the player. It does not check its
      arguments; anything that is neither equal nor one of the three winning
      pairs is a loss. */
  function DetermineResult(user: string, cpu: string): (r: string)
    ensures r == "draw" || r == "win" || r == "lose"
    ensures r == "draw" <==> user == cpu
  {
    if user == cpu then "draw"
    else if (user == "rock" && cpu == "scissors")
         || (user == "paper" && cpu == "rock")
         || (user == "scissors" && cpu == "paper") then "win"
    else "lose"
  }

  /** The position of a valid choice in ValidChoices. */
  function Index(c: string): (i: nat)
    requires c in ValidChoices
    ensures i < 3 && ValidChoices[i] == c
  {
    if c == ValidChoices[0] then 0 else if c == ValidChoices[1] then 1 else 2
  }

  /** Each choice beats the one listed just before it, cyclically. */
  predicate Beats(a: string, b: string)
    requires a in ValidChoices && b in ValidChoices
  {
    Index(a) == (Index(b) + 1) % 3
  }

  /** On valid choices the rule is the cyclic order: a win when the player's
      choice beats the CPU's, a loss when the CPU's beats the player's. */
  lemma ResultFollowsCycle(user: string, cpu: string)
    requires user in ValidChoices && cpu in ValidChoices
    ensures DetermineResult(user, cpu) == "win" <==> Beats(user, cpu)
    ensures DetermineResult(user, cpu) == "lose" <==> Beats(cpu, user)
  {
  }

  /** Swapping two different valid choices swaps win and loss. */
  lemma WinLoseSwap(a: string, b: string)
    requires a in ValidChoices && b in ValidChoices && a != b
    ensures DetermineResult(a, b) == "win" <==> DetermineResult(b, a) == "lose"
    ensures DetermineResult(a, b) == "lose" <==> DetermineResult(b, a) == "win"
  {
  }

  /** Unequal arguments of which one is not a valid choice always lose. */
  lemma InvalidUnequalLoses(user: string, cpu: string)
    requires user != cpu && (user !in ValidChoices || cpu !in ValidChoices)
    ensures DetermineResult(user, cpu) == "lose"
  {
  }

  /** For each valid player choice and each outcome exactly one CPU choice
      produces that outcome. */
  lemma EachOutcomeOnce(user: string, outcome: string)
    requires user in ValidChoices
    requires outcome == "win" || outcome == "lose" || outcome == "draw"
    ensures exists cpu :: cpu in ValidChoices && DetermineResult(user, cpu) == outcome
    ensures forall c1, c2 ::
      (c1 in ValidChoices && c2 in ValidChoices &&
       DetermineResult(user, c1) == outcome && DetermineResult(user, c2) == outcome) ==> c1 == c2
  {
    var i := Index(user);
    var cpu := if outcome == "draw" then user
               else if outcome == "win" then ValidChoices[(i + 2) % 3]
               else ValidChoices[(i + 1) % 3];
    ResultFollowsCycle(user, cpu);
    forall c1, c2 | c1 in ValidChoices && c2 in ValidChoices
      && DetermineResult(user, c1) == outcome && DetermineResult(user, c2) == outcome
      ensures c1 == c2
    {
      ResultFollowsCycle(user, c1);
      ResultFollowsCycle(user, c2);
    }
  }

  /** `play`: reject a choice outside ValidChoices, otherwise draw the CPU's
      choice and score the round. `random.choice` is the parameter draw, the
      index it picks. */
  function Play(userChoice: string, draw: nat): (r: Result<(string, string), RpsError>)
    requires draw < |ValidChoices|
    ensures r.Err? <==> userChoice !in ValidChoices
    ensures r.Err? ==> r.error == InvalidChoice(userChoice)
    ensures r.Ok? ==> r.value.0 in ValidChoices && r.value.1 == DetermineResult(userChoice, r.value.0)
  {
    if userChoice !in ValidChoices then Err(InvalidChoice(userChoice))
    else
      var cpuChoice := ValidChoices[draw];
      Ok((cpuChoice, DetermineResult(userChoice, cpuChoice)))
  }

  /** Every CPU choice can be drawn, so every outcome can occur in a round. */
  lemma PlayReachesEveryOutcome(userChoice: string, outcome: string)
    requires userChoice in ValidChoices
    requires outcome == "win" || outcome == "lose" || outcome == "draw"
    ensures exists draw :: 0 <= draw < 3 && Play(userChoice, draw).value.1 == outcome
  {
    EachOutcomeOnce(userChoice, outcome);
    var cpu :| cpu in ValidChoices && DetermineResult(userChoice, cpu) == outcome;
    assert Play(userChoice, Index(cpu)).value.1 == outcome;
  }
}
