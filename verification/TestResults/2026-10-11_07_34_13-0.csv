TestResult.DisplayName,TestResult.Outcome,TestResult.Duration,TestResult.ResourceCount,RandomSeed
RoundTrip.MtFsmReencode (correctness),Failed,00:00:21.6141400,20179373,0
RoundTrip.MtFsmReencode (well-formedness),Passed,00:00:00.2808928,184700,0
