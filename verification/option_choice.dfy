/** The randomised answer choice both workload drivers make
    (`chooseOptionId`, identical in server/bench/ws_stress.ts and
    server/bench/quiz_service_stress.ts).  The `Math.random()` draw is a
    parameter. */
module OptionChoice {

  /** Option `_b` below 0.8, option `_a` below 0.95, otherwise the empty
      option id (an abstention the server scores as wrong). */
  function ChooseOptionId(questionId: string, draw: real): (r: string)
    ensures draw < 0.8 <==> r == questionId + "_b"
    ensures 0.8 <= draw < 0.95 <==> r == questionId + "_a"
    ensures draw >= 0.95 <==> r == ""
  {
    assert (questionId + "_b")[|questionId| + 1] == 'b';
    assert (questionId + "_a")[|questionId| + 1] == 'a';
    if draw < 0.8 then questionId + "_b"
    else if draw < 0.95 then questionId + "_a"
    else ""
  }
}
